/**
 * The frequency table: resource reference -> number of times it was seen,
 * filled by increment-or-insert, and the folds that describe a whole search.
 */
module Frequency {

  type Table = map<string, nat>

  /** The count of `k`, zero when it is absent. */
  function Count(m: Table, k: string): nat
  {
    if k in m then m[k] else 0
  }

  /** The table invariant: every key present has been seen at least once. */
  ghost predicate AllPositive(m: Table)
  {
    forall k :: k in m ==> m[k] >= 1
  }

  /**
   * `merge(resource, 1, (old, in) -> old + in)`: the count of `k` becomes 1
   * if it was absent and is incremented otherwise; nothing else changes.
   */
  function Merge(m: Table, k: string): (r: Table)
    ensures r.Keys == m.Keys + {k}
    ensures Count(r, k) == Count(m, k) + 1
    ensures forall j :: j != k ==> Count(r, j) == Count(m, j)
    ensures AllPositive(m) ==> AllPositive(r)
  {
    if k in m then m[k := m[k] + 1] else m[k := 1]
  }

  /** The table after `Merge` is applied to each item of `refs` in turn. */
  function Tally(m: Table, refs: seq<string>): (r: Table)
    ensures m.Keys <= r.Keys
    ensures forall k :: Count(m, k) <= Count(r, k)
    decreases |refs|
  {
    if refs == [] then m else Merge(Tally(m, refs[..|refs| - 1]), refs[|refs| - 1])
  }

  /** Each count grows by exactly the number of occurrences of its key: no increment is lost. */
  lemma {:induction false} TallyCount(m: Table, refs: seq<string>, k: string)
    ensures Count(Tally(m, refs), k) == Count(m, k) + multiset(refs)[k]
    decreases |refs|
  {
    if refs != [] {
      var init, last := refs[..|refs| - 1], refs[|refs| - 1];
      assert refs == init + [last];
      TallyCount(m, init, k);
    }
  }

  /** The keys afterwards are the keys before together with every reference fed in. */
  lemma {:induction false} TallyKeys(m: Table, refs: seq<string>, k: string)
    ensures k in Tally(m, refs) <==> k in m || k in refs
    decreases |refs|
  {
    if refs != [] {
      var init, last := refs[..|refs| - 1], refs[|refs| - 1];
      assert refs == init + [last];
      TallyKeys(m, init, k);
    }
  }

  /** Feeding references keeps every count positive. */
  lemma {:induction false} TallyPositive(m: Table, refs: seq<string>)
    requires AllPositive(m)
    ensures AllPositive(Tally(m, refs))
    decreases |refs|
  {
    if refs != [] {
      TallyPositive(m, refs[..|refs| - 1]);
    }
  }

  /**
   * A fresh table fed with `refs`: its keys are exactly the references, each
   * counted as often as it occurs, so every count is at least 1.
   */
  lemma FreshTally(refs: seq<string>)
    ensures forall k :: k in Tally(map[], refs) <==> k in refs
    ensures forall k :: Count(Tally(map[], refs), k) == multiset(refs)[k]
    ensures AllPositive(Tally(map[], refs))
  {
    forall k ensures (k in Tally(map[], refs) <==> k in refs) && Count(Tally(map[], refs), k) == multiset(refs)[k] {
      TallyKeys(map[], refs, k);
      TallyCount(map[], refs, k);
    }
    TallyPositive(map[], refs);
  }

  /** Feeding `a` and then `b` is feeding `a + b`. */
  lemma {:induction false} TallyAppend(m: Table, a: seq<string>, b: seq<string>)
    ensures Tally(m, a + b) == Tally(Tally(m, a), b)
    decreases |b|
  {
    if b == [] {
      assert a + b == a;
    } else {
      var init := b[..|b| - 1];
      assert (a + b)[..|a + b| - 1] == a + init;
      TallyAppend(m, a, init);
    }
  }

  /**
   * The order of the increments does not matter: any rearrangement of the
   * same references (any interleaving of concurrent increments) gives the same table.
   */
  lemma TallyPermutation(m: Table, a: seq<string>, b: seq<string>)
    requires multiset(a) == multiset(b)
    ensures Tally(m, a) == Tally(m, b)
  {
    forall k ensures (k in Tally(m, a) <==> k in Tally(m, b)) && Count(Tally(m, a), k) == Count(Tally(m, b), k) {
      TallyKeys(m, a, k);
      TallyKeys(m, b, k);
      TallyCount(m, a, k);
      TallyCount(m, b, k);
      assert k in a <==> k in multiset(a);
      assert k in b <==> k in multiset(b);
    }
  }

  /**
   * Stopping after the first `n` increments of a schedule (the wait for the
   * tasks timed out) leaves no count higher and no key that the full schedule
   * would not have.
   */
  lemma PartialTally(m: Table, s: seq<string>, n: nat)
    requires n <= |s|
    ensures forall k :: Count(Tally(m, s[..n]), k) <= Count(Tally(m, s), k)
    ensures forall k :: k in Tally(m, s[..n]) ==> k in Tally(m, s)
  {
    forall k ensures Count(Tally(m, s[..n]), k) <= Count(Tally(m, s), k)
                && (k in Tally(m, s[..n]) ==> k in Tally(m, s)) {
      assert s == s[..n] + s[n..];
      TallyCount(m, s[..n], k);
      TallyCount(m, s, k);
      TallyKeys(m, s[..n], k);
      TallyKeys(m, s, k);
    }
  }

  /** The references of all pages, page after page. */
  function Flatten(pages: seq<seq<string>>): (r: seq<string>)
    ensures forall x :: x in r <==> exists i :: 0 <= i < |pages| && x in pages[i]
    decreases |pages|
  {
    if pages == [] then [] else Flatten(pages[..|pages| - 1]) + pages[|pages| - 1]
  }

  lemma {:induction false} FlattenConcat(p: seq<seq<string>>, q: seq<seq<string>>)
    ensures Flatten(p + q) == Flatten(p) + Flatten(q)
    decreases |q|
  {
    if q == [] {
      assert p + q == p;
    } else {
      var init := q[..|q| - 1];
      assert (p + q)[..|p + q| - 1] == p + init;
      FlattenConcat(p, init);
    }
  }

  /** Taking one page out of the middle takes exactly its references out. */
  lemma FlattenRemove(before: seq<seq<string>>, page: seq<string>, after: seq<seq<string>>)
    ensures multiset(Flatten(before + [page] + after)) == multiset(Flatten(before + after)) + multiset(page)
  {
    FlattenConcat(before + [page], after);
    FlattenConcat(before, after);
    assert Flatten(before + [page]) == Flatten(before) + page by {
      assert (before + [page])[..|before|] == before;
    }
  }

  lemma MultisetCancel(init: seq<seq<string>>, before: seq<seq<string>>, x: seq<string>, after: seq<seq<string>>)
    requires multiset(init + [x]) == multiset(before + [x] + after)
    ensures multiset(init) == multiset(before + after)
  {
    assert multiset(init) + multiset{x} == multiset(before + after) + multiset{x};
    forall y ensures multiset(init)[y] == multiset(before + after)[y] {
      assert (multiset(init) + multiset{x})[y] == (multiset(before + after) + multiset{x})[y];
    }
  }

  /** Rearranging the pages rearranges their references and nothing more. */
  lemma {:induction false} FlattenPermutation(p: seq<seq<string>>, q: seq<seq<string>>)
    requires multiset(p) == multiset(q)
    ensures multiset(Flatten(p)) == multiset(Flatten(q))
    decreases |p|
  {
    if p == [] {
      assert |q| == |multiset(q)| == 0;
    } else {
      var init, last := p[..|p| - 1], p[|p| - 1];
      assert p == init + [last];
      assert last in multiset(q);
      var j :| 0 <= j < |q| && q[j] == last;
      var before, after := q[..j], q[j + 1..];
      assert q == before + [last] + after;
      MultisetCancel(init, before, last, after);
      FlattenPermutation(init, before + after);
      FlattenRemove(before, last, after);
      FlattenRemove(init, last, []);
      assert init + [last] + [] == p && init + [] == init;
    }
  }

  /** The pages may be processed in any order: the table is the same. */
  lemma PagesInAnyOrder(m: Table, p: seq<seq<string>>, q: seq<seq<string>>)
    requires multiset(p) == multiset(q)
    ensures Tally(m, Flatten(p)) == Tally(m, Flatten(q))
  {
    FlattenPermutation(p, q);
    TallyPermutation(m, Flatten(p), Flatten(q));
  }

  /**
   * A page that contributes nothing (its download failed) leaves the table
   * as if its link had not been there, wherever it stands among the others.
   */
  lemma FailedPageIsolated(p: seq<seq<string>>, q: seq<seq<string>>)
    ensures Flatten(p + [[]] + q) == Flatten(p + q)
  {
    FlattenConcat(p + [[]], q);
    FlattenConcat(p, q);
    assert Flatten(p + [[]]) == Flatten(p) by {
      assert (p + [[]])[..|p|] == p;
    }
  }
}
