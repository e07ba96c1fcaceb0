/**
 * The report: the table's keys put into a `TreeMap` ordered by the frequency
 * comparator (count descending, then case-insensitive name ascending), of
 * which the first `ReportItemsAmount` keys are printed.
 *
 * The tree is modelled as the sorted sequence of its keys. A `TreeMap`
 * treats keys its comparator calls equal as one key and keeps the one
 * inserted first, so keys with the same count that differ only in letter
 * case share one entry, and which spelling survives depends on the order in
 * which the hash map hands its keys to `putAll`.
 */
module Ranking {
  import opened Strings
  import opened Frequency

  /** `REPORT_ITEMS_AMOUNT` */
  const ReportItemsAmount: nat := 5

  function Min(x: nat, y: nat): nat
  {
    if x <= y then x else y
  }

  /** Every element of `s` is a key of `m`. */
  ghost predicate InTable(m: Table, s: seq<string>)
  {
    forall i :: 0 <= i < |s| ==> s[i] in m
  }

  ghost predicate NoDuplicates(s: seq<string>)
  {
    forall i, j :: 0 <= i < j < |s| ==> s[i] != s[j]
  }

  /** `order` lists every key of `m` exactly once (the hash map's iteration order). */
  ghost predicate IsEnumeration(order: seq<string>, m: Table)
  {
    && InTable(m, order)
    && (forall k :: k in m ==> k in order)
    && NoDuplicates(order)
  }

  /** `a` ranks strictly before `b`: a higher count, or the same count and a lower-cased name that sorts first. */
  ghost predicate RanksBefore(m: Table, a: string, b: string)
    requires a in m && b in m
  {
    m[a] > m[b] || (m[a] == m[b] && LexLess(Lower(a), Lower(b)))
  }

  /** `a` and `b` rank the same: same count and the same name up to ASCII case. */
  ghost predicate SameRank(m: Table, a: string, b: string)
    requires a in m && b in m
  {
    m[a] == m[b] && Lower(a) == Lower(b)
  }

  /** `Integer.compareTo` */
  function CompareInt(x: int, y: int): (r: int)
    ensures r < 0 <==> x < y
    ensures r == 0 <==> x == y
    ensures r > 0 <==> x > y
  {
    if x < y then -1 else if x == y then 0 else 1
  }

  /**
   * `getFrequencyComparator`: counts compared in reverse, ties broken by
   * `compareToIgnoreCase`. It is a total preorder whose classes are the
   * `SameRank` classes.
   */
  function Compare(m: Table, first: string, second: string): (r: int)
    requires first in m && second in m
    ensures r < 0 <==> RanksBefore(m, first, second)
    ensures r == 0 <==> SameRank(m, first, second)
    ensures r > 0 <==> RanksBefore(m, second, first)
  {
    var result := CompareInt(m[second], m[first]);
    if result != 0 then result else CompareToIgnoreCase(first, second)
  }

  lemma RanksBeforeTransitive(m: Table, a: string, b: string, c: string)
    requires a in m && b in m && c in m
    requires RanksBefore(m, a, b) && RanksBefore(m, b, c)
    ensures RanksBefore(m, a, c)
  {
    if m[a] == m[b] == m[c] {
      LexLessTransitive(Lower(a), Lower(b), Lower(c));
    }
  }

  /** Ranking strictly before excludes the converse and ranking the same. */
  lemma RanksBeforeAsymmetric(m: Table, a: string, b: string)
    requires a in m && b in m && RanksBefore(m, a, b)
    ensures !RanksBefore(m, b, a) && !SameRank(m, a, b) && a != b
  {
    var _ := Compare(m, a, b);
  }

  /** `s` is in strictly ascending comparator order, as the keys of a `TreeMap` are. */
  ghost predicate Ranked(m: Table, s: seq<string>)
  {
    && InTable(m, s)
    && forall i, j :: 0 <= i < j < |s| ==> RanksBefore(m, s[i], s[j])
  }

  lemma RankedTail(m: Table, s: seq<string>)
    requires Ranked(m, s) && s != []
    ensures Ranked(m, s[1..])
  {
  }

  lemma RankedCons(m: Table, x: string, s: seq<string>)
    requires x in m && Ranked(m, s)
    requires forall j :: 0 <= j < |s| ==> RanksBefore(m, x, s[j])
    ensures Ranked(m, [x] + s)
  {
  }

  /** The first element of a sorted sequence ranks before every other one. */
  lemma RankedHead(m: Table, s: seq<string>, x: string)
    requires Ranked(m, s) && x in s
    ensures x == s[0] || RanksBefore(m, s[0], x)
  {
  }

  /** Some element of `s` ranks the same as `k`. */
  ghost predicate Represented(m: Table, s: seq<string>, k: string)
    requires k in m && InTable(m, s)
  {
    exists j :: 0 <= j < |s| && SameRank(m, k, s[j])
  }

  lemma RepresentedCons(m: Table, x: string, s: seq<string>, k: string)
    requires x in m && k in m && InTable(m, s)
    ensures InTable(m, [x] + s)
    ensures Represented(m, [x] + s, k) <==> SameRank(m, k, x) || Represented(m, s, k)
  {
    var r := [x] + s;
    assert InTable(m, r) by {
      forall i | 0 <= i < |r| ensures r[i] in m {
        if i > 0 {
          assert r[i] == s[i - 1];
        }
      }
    }
    if Represented(m, r, k) {
      var j :| 0 <= j < |r| && SameRank(m, k, r[j]);
      if j > 0 {
        assert SameRank(m, k, s[j - 1]);
      }
    }
    if Represented(m, s, k) {
      var j :| 0 <= j < |s| && SameRank(m, k, s[j]);
      assert SameRank(m, k, r[j + 1]);
    }
    if SameRank(m, k, x) {
      assert SameRank(m, k, r[0]);
    }
  }

  /** A key stays represented in a sequence that keeps all the old elements. */
  lemma RepresentedMono(m: Table, s: seq<string>, r: seq<string>, k: string)
    requires k in m && InTable(m, s) && InTable(m, r)
    requires Represented(m, s, k)
    requires forall x :: x in s ==> x in r
    ensures Represented(m, r, k)
  {
    var j :| 0 <= j < |s| && SameRank(m, k, s[j]);
    assert s[j] in s;
    var q :| 0 <= q < |r| && r[q] == s[j];
    assert SameRank(m, k, r[q]);
  }

  /** `TreeMap.put(k, ...)` on the sorted key sequence: a key the comparator calls equal to `k` stays. */
  function Insert(m: Table, sorted: seq<string>, k: string): (r: seq<string>)
    requires k in m && InTable(m, sorted)
    ensures InTable(m, r)
    ensures forall x :: x in sorted ==> x in r
    ensures forall x :: x in r ==> x in sorted || x == k
    ensures |sorted| <= |r| <= |sorted| + 1
    decreases |sorted|
  {
    if sorted == [] then [k]
    else
      var c := Compare(m, k, sorted[0]);
      if c < 0 then [k] + sorted
      else if c == 0 then sorted
      else [sorted[0]] + Insert(m, sorted[1..], k)
  }

  /**
   * Inserting into a sorted sequence keeps it sorted; the sequence is
   * unchanged when an equally ranked key is there already, and grows by `k`
   * otherwise.
   */
  lemma {:induction false} InsertRanked(m: Table, s: seq<string>, k: string)
    requires k in m && Ranked(m, s)
    ensures Ranked(m, Insert(m, s, k))
    ensures Represented(m, s, k) ==> Insert(m, s, k) == s
    ensures !Represented(m, s, k) ==> k in Insert(m, s, k) && |Insert(m, s, k)| == |s| + 1
    decreases |s|
  {
    if s != [] {
      var c := Compare(m, k, s[0]);
      if c < 0 {
        forall j | 0 <= j < |s| ensures RanksBefore(m, k, s[j]) {
          if j > 0 {
            RanksBeforeTransitive(m, k, s[0], s[j]);
          }
        }
        RankedCons(m, k, s);
        forall j | 0 <= j < |s| ensures !SameRank(m, k, s[j]) {
          RanksBeforeAsymmetric(m, k, s[j]);
        }
      } else if c == 0 {
        assert SameRank(m, k, s[0]);
      } else {
        var tail := s[1..];
        RankedTail(m, s);
        InsertRanked(m, tail, k);
        var t := Insert(m, tail, k);
        forall j | 0 <= j < |t| ensures RanksBefore(m, s[0], t[j]) {
          if t[j] != k {
            assert t[j] in t;
            var q :| 0 <= q < |tail| && tail[q] == t[j];
            assert s[q + 1] == t[j];
          }
        }
        RankedCons(m, s[0], t);
        RepresentedCons(m, s[0], tail, k);
        assert s == [s[0]] + tail;
      }
    }
  }

  /** The `TreeMap` after `putAll` has inserted the keys of `order` one after another. */
  function Build(m: Table, order: seq<string>): (r: seq<string>)
    requires InTable(m, order)
    ensures InTable(m, r)
    ensures |r| <= |order|
    ensures order != [] ==> r != []
    decreases |order|
  {
    if order == [] then [] else Insert(m, Build(m, order[..|order| - 1]), order[|order| - 1])
  }

  /**
   * The tree holds keys of `order` only, in strictly ascending comparator
   * order, and every key of `order` ranks the same as one of them.
   */
  lemma {:induction false} BuildRanked(m: Table, order: seq<string>)
    requires InTable(m, order)
    ensures Ranked(m, Build(m, order))
    ensures forall x :: x in Build(m, order) ==> x in order
    ensures forall i :: 0 <= i < |order| ==> Represented(m, Build(m, order), order[i])
    decreases |order|
  {
    if order != [] {
      var init, k := order[..|order| - 1], order[|order| - 1];
      BuildRanked(m, init);
      var prev := Build(m, init);
      InsertRanked(m, prev, k);
      var r := Build(m, order);
      assert r == Insert(m, prev, k);
      forall x | x in r ensures x in order {
        if x != k {
          var q :| 0 <= q < |init| && init[q] == x;
          assert order[q] == x;
        }
      }
      forall i | 0 <= i < |order| ensures Represented(m, r, order[i]) {
        if i < |order| - 1 {
          assert order[i] == init[i];
          RepresentedMono(m, prev, r, order[i]);
        } else if !Represented(m, prev, k) {
          var q :| 0 <= q < |r| && r[q] == k;
          assert SameRank(m, k, r[q]);
        }
      }
    }
  }

  /** Without two keys of the same rank, no key is dropped: the tree is as long as `order`. */
  lemma {:induction false} BuildSize(m: Table, order: seq<string>)
    requires InTable(m, order) && NoDuplicates(order)
    requires forall a, b :: a in m && b in m && SameRank(m, a, b) ==> a == b
    ensures |Build(m, order)| == |order|
    decreases |order|
  {
    if order != [] {
      var init, k := order[..|order| - 1], order[|order| - 1];
      BuildSize(m, init);
      BuildRanked(m, init);
      var prev := Build(m, init);
      InsertRanked(m, prev, k);
      assert k !in prev by {
        forall q | 0 <= q < |init| ensures init[q] != k {
          assert order[q] == init[q];
        }
      }
      assert !Represented(m, prev, k) by {
        forall j | 0 <= j < |prev| ensures !SameRank(m, k, prev[j]) {
          assert prev[j] in prev;
        }
      }
    }
  }

  /** `sortedResourcesByFrequency.keySet().stream().limit(REPORT_ITEMS_AMOUNT)` */
  function Report(m: Table, order: seq<string>): (r: seq<string>)
    requires InTable(m, order)
    ensures |r| <= ReportItemsAmount
    ensures forall i :: 0 <= i < |r| ==> r[i] in m
  {
    var tree := Build(m, order);
    tree[..Min(ReportItemsAmount, |tree|)]
  }

  /** A report is what some iteration order of the table's keys yields. */
  ghost predicate IsReport(report: seq<string>, m: Table)
  {
    exists order :: IsEnumeration(order, m) && report == Report(m, order)
  }

  /**
   * Adjacent report entries: the first has the higher count, or the counts
   * are equal and its lower-cased name sorts strictly first.
   */
  lemma ReportOrdered(m: Table, order: seq<string>)
    requires InTable(m, order)
    ensures var r := Report(m, order);
            forall i :: 0 <= i < |r| - 1 ==>
              m[r[i]] > m[r[i + 1]] || (m[r[i]] == m[r[i + 1]] && LexLess(Lower(r[i]), Lower(r[i + 1])))
  {
    BuildRanked(m, order);
  }

  lemma RanksBeforeSameRank(m: Table, a: string, b: string, c: string)
    requires a in m && b in m && c in m
    requires RanksBefore(m, a, b) && SameRank(m, b, c)
    ensures RanksBefore(m, a, c)
  {
  }

  /** A key represented in a sorted sequence is represented in a non-empty prefix, or ranks after the prefix's last element. */
  lemma PrefixRest(m: Table, s: seq<string>, n: nat, k: string)
    requires Ranked(m, s) && k in m && Represented(m, s, k) && 0 < n <= |s|
    ensures InTable(m, s[..n])
    ensures Represented(m, s[..n], k) || (n < |s| && RanksBefore(m, s[n - 1], k))
  {
  }

  /**
   * Every key of the table that is not printed ranks the same as a printed
   * key, or the report is full and the key ranks after its last entry.
   */
  lemma ReportRest(m: Table, order: seq<string>, k: string)
    requires IsEnumeration(order, m) && k in m
    ensures k !in Report(m, order) ==>
              Represented(m, Report(m, order), k) ||
              (|Report(m, order)| == ReportItemsAmount && RanksBefore(m, Report(m, order)[ReportItemsAmount - 1], k))
  {
    BuildRanked(m, order);
    var tree := Build(m, order);
    assert k in order;
    var i :| 0 <= i < |order| && order[i] == k;
    assert Represented(m, tree, order[i]);
    PrefixRest(m, tree, Min(ReportItemsAmount, |tree|), k);
  }

  /**
   * No two report entries rank the same, so two keys with the same count and
   * the same name up to case never both appear.
   */
  lemma ReportCollapses(m: Table, order: seq<string>)
    requires InTable(m, order)
    ensures var r := Report(m, order);
            forall i, j :: 0 <= i < j < |r| ==> !SameRank(m, r[i], r[j]) && r[i] != r[j]
  {
    BuildRanked(m, order);
    var r := Report(m, order);
    forall i, j | 0 <= i < j < |r| ensures !SameRank(m, r[i], r[j]) && r[i] != r[j] {
      RanksBeforeAsymmetric(m, r[i], r[j]);
    }
  }

  lemma DistinctCard(s: seq<string>)
    requires NoDuplicates(s)
    ensures |set x | x in s| == |s|
  {
    if s != [] {
      var init := s[..|s| - 1];
      DistinctCard(init);
      assert (set x | x in s) == (set x | x in init) + {s[|s| - 1]};
    }
  }

  /**
   * When no two keys share a rank, the report holds exactly the first
   * `min(5, number of keys)` keys.
   */
  lemma ReportLength(m: Table, order: seq<string>)
    requires IsEnumeration(order, m)
    requires forall a, b :: a in m && b in m && SameRank(m, a, b) ==> a == b
    ensures |Report(m, order)| == Min(ReportItemsAmount, |m|)
  {
    BuildSize(m, order);
    DistinctCard(order);
    assert (set x | x in order) == m.Keys;
  }

  /** Called where the sequence is known to be empty, so that no index is checked in a branch that cannot happen. */
  lemma HeadMember(s: seq<string>)
    ensures s != [] ==> s[0] in s
  {
  }

  lemma TailMember(m: Table, s: seq<string>, t: seq<string>, x: string)
    requires Ranked(m, s) && s != [] && t != [] && s[0] == t[0]
    requires forall y :: y in s <==> y in t
    requires x in s[1..]
    ensures x in t[1..]
  {
    var q :| 0 <= q < |s[1..]| && s[1..][q] == x;
    assert s[q + 1] == x && s[q + 1] in s;
    RanksBeforeAsymmetric(m, s[0], s[q + 1]);
    var p :| 0 <= p < |t| && t[p] == x;
    assert t[1..][p - 1] == x;
  }

  /** Two strictly ascending sequences with the same elements are the same sequence. */
  lemma {:induction false} RankedUnique(m: Table, s: seq<string>, t: seq<string>)
    requires Ranked(m, s) && Ranked(m, t)
    requires forall x :: x in s <==> x in t
    ensures s == t
    decreases |s|
  {
    if s == [] || t == [] {
      HeadMember(s);
      HeadMember(t);
    } else {
      RankedHead(m, s, t[0]);
      RankedHead(m, t, s[0]);
      if s[0] != t[0] {
        RanksBeforeAsymmetric(m, s[0], t[0]);
      }
      assert s[0] == t[0];
      forall x ensures x in s[1..] <==> x in t[1..] {
        if x in s[1..] {
          TailMember(m, s, t, x);
        }
        if x in t[1..] {
          TailMember(m, t, s, x);
        }
      }
      RankedTail(m, s);
      RankedTail(m, t);
      RankedUnique(m, s[1..], t[1..]);
    }
  }

  /**
   * When no two keys share a rank, the report does not depend on the order
   * in which the hash map hands over its keys.
   */
  lemma ReportDeterministic(m: Table, o1: seq<string>, o2: seq<string>)
    requires IsEnumeration(o1, m) && IsEnumeration(o2, m)
    requires forall a, b :: a in m && b in m && SameRank(m, a, b) ==> a == b
    ensures Report(m, o1) == Report(m, o2)
  {
    BuildRanked(m, o1);
    BuildRanked(m, o2);
    var t1, t2 := Build(m, o1), Build(m, o2);
    forall x ensures x in t1 <==> x in t2 {
      forall o | o == o1 || o == o2 ensures x in Build(m, o) <==> x in m {
        if x in m {
          var i :| 0 <= i < |o| && o[i] == x;
          var j :| 0 <= j < |Build(m, o)| && SameRank(m, x, Build(m, o)[j]);
        }
      }
    }
    RankedUnique(m, t1, t2);
  }

  /** A second key that ranks before the first is put in front of it. */
  lemma BuildTwo(m: Table, a: string, b: string)
    requires a in m && b in m && RanksBefore(m, b, a)
    ensures Build(m, [a, b]) == [b, a]
  {
    var _ := Compare(m, b, a);
    assert [a, b][..1] == [a] && [a][..0] == [];
    assert Build(m, []) == [];
    assert Build(m, [a]) == Insert(m, [], a) == [a];
    assert Build(m, [a, b]) == Insert(m, [a], b);
    assert Insert(m, [a], b) == [b] + [a];
  }
}
