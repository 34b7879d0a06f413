/**
 `sorted(items, key=lambda item: item[1], reverse=True)`: the table's
 entries ordered by descending count. Python's sort is stable, and
 `reverse=True` keeps it stable, so entries with equal counts keep their
 relative order. A stable sort has only one possible result; here it is
 computed by insertion.
 */
module Sorting {
  import opened Seqs
  import opened Dicts

  /** Counts never increase from left to right. */
  predicate CountAtLeast(a: Entry, b: Entry) {
    a.count >= b.count
  }

  ghost predicate CountsNonIncreasing(s: seq<Entry>) {
    Pairwise(s, CountAtLeast)
  }

  /** The entries of `s` with count `k`, in their order in `s`. */
  function WithCount(s: seq<Entry>, k: nat): seq<Entry> {
    Filter(s, (e: Entry) => e.count == k)
  }

  /** `t` lists, for every count, the entries of `s` with that count in the same order. */
  ghost predicate StableReorder(s: seq<Entry>, t: seq<Entry>) {
    forall k :: WithCount(t, k) == WithCount(s, k)
  }

  lemma WithCountCons(x: Entry, s: seq<Entry>, k: nat)
    ensures WithCount([x] + s, k) == (if x.count == k then [x] else []) + WithCount(s, k)
  {
    assert ([x] + s)[1..] == s;
  }

  /** Places `e` in front of the first entry whose count is not above its own. */
  function Insert(e: Entry, s: seq<Entry>): (r: seq<Entry>)
    ensures multiset(r) == multiset(s) + multiset{e}
  {
    if s == [] || s[0].count <= e.count then [e] + s
    else
      assert s == [s[0]] + s[1..];
      [s[0]] + Insert(e, s[1..])
  }

  /** The model of `sorted(..., key=count, reverse=True)`. */
  function SortByCountDesc(s: seq<Entry>): (r: seq<Entry>)
    ensures multiset(r) == multiset(s)
    ensures CountsNonIncreasing(r)
  {
    if s == [] then []
    else
      assert s == [s[0]] + s[1..];
      var rest := SortByCountDesc(s[1..]);
      InsertKeepsOrder(s[0], rest);
      Insert(s[0], rest)
  }

  lemma {:induction false} InsertKeepsOrder(e: Entry, s: seq<Entry>)
    requires CountsNonIncreasing(s)
    ensures CountsNonIncreasing(Insert(e, s))
  {
    var r := Insert(e, s);
    if s == [] || s[0].count <= e.count {
      forall i, j | 0 <= i < j < |r| ensures r[i].count >= r[j].count {
        if i == 0 { assert r[j] == s[j - 1]; if j > 1 { assert s[0].count >= s[j - 1].count; } }
        else { assert r[i] == s[i - 1] && r[j] == s[j - 1]; }
      }
    } else {
      var tail := s[1..];
      assert CountsNonIncreasing(tail) by {
        forall i, j | 0 <= i < j < |tail| ensures tail[i].count >= tail[j].count {
          assert tail[i] == s[i + 1] && tail[j] == s[j + 1];
        }
      }
      InsertKeepsOrder(e, tail);
      var rest := Insert(e, tail);
      forall x | x in rest ensures s[0].count >= x.count {
        assert x in multiset(rest);
        if x != e {
          assert x in tail;
          var k :| 0 <= k < |tail| && tail[k] == x;
          assert s[k + 1] == x;
        }
      }
      forall i, j | 0 <= i < j < |r| ensures r[i].count >= r[j].count {
        assert r[j] == rest[j - 1];
        if i > 0 { assert r[i] == rest[i - 1]; }
      }
    }
  }

  /** Inserting `e` puts it ahead of every entry with the same count. */
  lemma {:induction false} InsertWithCount(e: Entry, s: seq<Entry>, k: nat)
    ensures WithCount(Insert(e, s), k) == (if e.count == k then [e] else []) + WithCount(s, k)
  {
    if s == [] || s[0].count <= e.count {
      WithCountCons(e, s, k);
    } else {
      InsertWithCount(e, s[1..], k);
      WithCountCons(s[0], Insert(e, s[1..]), k);
      assert s == [s[0]] + s[1..];
      WithCountCons(s[0], s[1..], k);
    }
  }

  /** The sort is stable: entries with equal counts keep their relative order. */
  lemma {:induction false} SortIsStable(s: seq<Entry>)
    ensures StableReorder(s, SortByCountDesc(s))
  {
    if s != [] {
      SortIsStable(s[1..]);
      assert s == [s[0]] + s[1..];
      forall k ensures WithCount(SortByCountDesc(s), k) == WithCount(s, k) {
        InsertWithCount(s[0], SortByCountDesc(s[1..]), k);
        WithCountCons(s[0], s[1..], k);
      }
    }
  }

  lemma TailNonIncreasing(s: seq<Entry>)
    requires s != [] && CountsNonIncreasing(s)
    ensures CountsNonIncreasing(s[1..])
  {
    forall i, j | 0 <= i < j < |s| - 1 ensures s[1..][i].count >= s[1..][j].count {
      assert s[1..][i] == s[i + 1] && s[1..][j] == s[j + 1];
    }
  }

  /** A non-empty descending sequence has somewhere an entry with count `k` only if its head's count is at least `k`. */
  lemma HeadIsLargest(s: seq<Entry>, k: nat)
    requires CountsNonIncreasing(s) && WithCount(s, k) != []
    ensures s != [] && s[0].count >= k
  {
    var x := WithCount(s, k)[0];
    assert x in WithCount(s, k);
    var j :| 0 <= j < |s| && s[j] == x;
    if j > 0 { assert CountAtLeast(s[0], s[j]); }
  }

  /**
   There is only one stable descending order: two descending sequences that
   agree on the order of the entries of every count are equal.
   */
  lemma {:induction false} StableDescendingOrderIsUnique(t1: seq<Entry>, t2: seq<Entry>)
    requires CountsNonIncreasing(t1) && CountsNonIncreasing(t2)
    requires StableReorder(t1, t2)
    ensures t1 == t2
    decreases |t1|
  {
    if t1 == [] && t2 != [] {
      assert t2 == [t2[0]] + t2[1..];
      WithCountCons(t2[0], t2[1..], t2[0].count);
    } else if t1 != [] {
      var a := t1[0];
      assert t1 == [a] + t1[1..];
      WithCountCons(a, t1[1..], a.count);
      HeadIsLargest(t2, a.count);
      var b := t2[0];
      assert t2 == [b] + t2[1..];
      WithCountCons(b, t2[1..], b.count);
      HeadIsLargest(t1, b.count);
      assert a.count == b.count;
      WithCountCons(b, t2[1..], a.count);
      assert a == b by {
        assert WithCount(t1, a.count)[0] == a && WithCount(t2, a.count)[0] == b;
      }
      forall k ensures WithCount(t2[1..], k) == WithCount(t1[1..], k) {
        WithCountCons(a, t1[1..], k);
        WithCountCons(b, t2[1..], k);
        var w1, w2 := WithCount(t1, k), WithCount(t2, k);
        assert w1 == w2;
        assert w1 == WithCount([a] + t1[1..], k);
        assert w2 == WithCount([b] + t2[1..], k);
        if a.count == k {
          assert w1[1..] == WithCount(t1[1..], k);
          assert w2[1..] == WithCount(t2[1..], k);
        } else {
          assert w1 == WithCount(t1[1..], k);
          assert w2 == WithCount(t2[1..], k);
        }
      }
      TailNonIncreasing(t1);
      TailNonIncreasing(t2);
      StableDescendingOrderIsUnique(t1[1..], t2[1..]);
    }
  }

  /** Whatever stable descending sort Python uses, its result is the one computed here. */
  lemma SortIsTheStableSort(s: seq<Entry>, t: seq<Entry>)
    requires CountsNonIncreasing(t) && StableReorder(s, t)
    ensures t == SortByCountDesc(s)
  {
    SortIsStable(s);
    StableDescendingOrderIsUnique(SortByCountDesc(s), t);
  }

  /** Relation `R` holds between every pair of equally counted entries, earlier to later. */
  ghost predicate TiesOrdered(s: seq<Entry>, R: (Entry, Entry) -> bool) {
    forall i, j :: 0 <= i < j < |s| && s[i].count == s[j].count ==> R(s[i], s[j])
  }

  /** What holds in order within every count class holds between the ties of the whole sequence. */
  lemma {:induction false} TiesFromCountClasses(t: seq<Entry>, R: (Entry, Entry) -> bool)
    requires forall k :: Pairwise(WithCount(t, k), R)
    ensures TiesOrdered(t, R)
  {
    if t != [] {
      var y, rest := t[0], t[1..];
      assert t == [y] + rest;
      forall k ensures Pairwise(WithCount(rest, k), R) {
        WithCountCons(y, rest, k);
        var w, w' := WithCount(t, k), WithCount(rest, k);
        forall i, j | 0 <= i < j < |w'| ensures R(w'[i], w'[j]) {
          var d := if y.count == k then 1 else 0;
          assert w[i + d] == w'[i] && w[j + d] == w'[j];
        }
      }
      TiesFromCountClasses(rest, R);
      forall j | 0 < j < |t| && t[j].count == y.count ensures R(y, t[j]) {
        var k := y.count;
        WithCountCons(y, rest, k);
        var w' := WithCount(rest, k);
        assert t[j] == rest[j - 1];
        assert t[j] in w';
        var m :| 0 <= m < |w'| && w'[m] == t[j];
        assert WithCount(t, k)[0] == y && WithCount(t, k)[m + 1] == t[j];
      }
      forall i, j | 0 <= i < j < |t| && t[i].count == t[j].count ensures R(t[i], t[j]) {
        if i > 0 { assert t[i] == rest[i - 1] && t[j] == rest[j - 1]; }
      }
    }
  }

  /** An order the entries were in before sorting survives between entries of equal count. */
  lemma SortKeepsTieOrder(s: seq<Entry>, R: (Entry, Entry) -> bool)
    requires Pairwise(s, R)
    ensures TiesOrdered(SortByCountDesc(s), R)
  {
    SortIsStable(s);
    forall k ensures Pairwise(WithCount(SortByCountDesc(s), k), R) {
      FilterPairwise(s, (e: Entry) => e.count == k, R);
    }
    TiesFromCountClasses(SortByCountDesc(s), R);
  }

  /** Inserting an entry whose character is new keeps the characters distinct. */
  lemma {:induction false} InsertKeepsKeysDistinct(e: Entry, s: seq<Entry>)
    requires DistinctKeys(s)
    requires forall x :: x in s ==> x.ch != e.ch
    ensures DistinctKeys(Insert(e, s))
  {
    var r := Insert(e, s);
    if s == [] || s[0].count <= e.count {
      forall i, j | 0 <= i < j < |r| ensures r[i].ch != r[j].ch {
        assert r[j] == s[j - 1];
        if i > 0 { assert r[i] == s[i - 1]; }
      }
    } else {
      var tail := s[1..];
      assert DistinctKeys(tail) by {
        forall i, j | 0 <= i < j < |tail| ensures tail[i].ch != tail[j].ch {
          assert tail[i] == s[i + 1] && tail[j] == s[j + 1];
        }
      }
      InsertKeepsKeysDistinct(e, tail);
      var rest := Insert(e, tail);
      forall x | x in rest ensures s[0].ch != x.ch {
        assert x in multiset(rest);
        if x != e {
          assert x in tail;
          var k :| 0 <= k < |tail| && tail[k] == x;
          assert s[k + 1] == x;
        }
      }
      forall i, j | 0 <= i < j < |r| ensures r[i].ch != r[j].ch {
        assert r[j] == rest[j - 1];
        if i > 0 { assert r[i] == rest[i - 1]; }
      }
    }
  }

  /** Sorting a table's items keeps every character on one entry only. */
  lemma {:induction false} SortKeepsKeysDistinct(s: seq<Entry>)
    requires DistinctKeys(s)
    ensures DistinctKeys(SortByCountDesc(s))
  {
    if s != [] {
      var tail := s[1..];
      assert DistinctKeys(tail) by {
        forall i, j | 0 <= i < j < |tail| ensures tail[i].ch != tail[j].ch {
          assert tail[i] == s[i + 1] && tail[j] == s[j + 1];
        }
      }
      SortKeepsKeysDistinct(tail);
      forall x | x in SortByCountDesc(tail) ensures x.ch != s[0].ch {
        assert x in multiset(SortByCountDesc(tail));
        var k :| 0 <= k < |tail| && tail[k] == x;
        assert s[k + 1] == x;
      }
      InsertKeepsKeysDistinct(s[0], SortByCountDesc(tail));
    }
  }
}
