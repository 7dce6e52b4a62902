/**
 * Ordering cards by column index.
 *
 * The board keeps every task of every column in one list. LINQ's `Where`
 * becomes `Filter`, and `OrderBy(x => x.ColumnIndex)`, a stable sort, becomes
 * `SortByIndex`. The per-column invariant is `Contiguous`: the indices of a
 * column's cards are exactly 0, 1, ..., n-1 for its n cards.
 */
module Ordering {
  import opened Tasks

  function Filter(s: seq<Card>, p: Card -> bool): (r: seq<Card>)
    ensures |r| <= |s|
  {
    if |s| == 0 then []
    else Filter(s[..|s| - 1], p) + (if p(s[|s| - 1]) then [s[|s| - 1]] else [])
  }

  lemma {:induction false} FilterMembers(s: seq<Card>, p: Card -> bool)
    ensures forall x :: x in Filter(s, p) <==> x in s && p(x)
  {
    if |s| > 0 {
      FilterMembers(s[..|s| - 1], p);
      assert s == s[..|s| - 1] + [s[|s| - 1]];
    }
  }

  lemma {:induction false} FilterConcat(a: seq<Card>, b: seq<Card>, p: Card -> bool)
    ensures Filter(a + b, p) == Filter(a, p) + Filter(b, p)
    decreases |b|
  {
    if |b| == 0 {
      assert a + b == a;
    } else {
      var b' := b[..|b| - 1];
      assert (a + b)[..|a + b| - 1] == a + b';
      FilterConcat(a, b', p);
    }
  }

  /** The cards of one column, in list order. */
  function InCategory(cards: seq<Card>, category: string): seq<Card> {
    Filter(cards, (c: Card) => c.task.category == category)
  }

  /** How many cards the column `category` holds. */
  function CountIn(cards: seq<Card>, category: string): nat {
    |InCategory(cards, category)|
  }

  /** The list positions whose card is in column `category`. */
  function Positions(cards: seq<Card>, category: string): set<nat> {
    set i: nat | i < |cards| && cards[i].task.category == category
  }

  /** `Where(x => x.Category == category).Count()` counts the positions holding a card of the column. */
  lemma {:induction false} CountInPositions(cards: seq<Card>, category: string)
    ensures CountIn(cards, category) == |Positions(cards, category)|
  {
    if |cards| == 0 {
      assert Positions(cards, category) == {};
    } else {
      var s := cards[..|cards| - 1];
      var c := cards[|cards| - 1];
      CountInPositions(s, category);
      var before := Positions(s, category);
      assert |s| !in before;
      if c.task.category == category {
        assert Positions(cards, category) == before + {|s|};
      } else {
        assert Positions(cards, category) == before;
      }
    }
  }

  /** The column indices of the cards, in list order. */
  function Keys(cards: seq<Card>): (ks: seq<int>)
    ensures |ks| == |cards|
    ensures forall i :: 0 <= i < |cards| ==> ks[i] == cards[i].task.columnIndex
  {
    seq(|cards|, i requires 0 <= i < |cards| => cards[i].task.columnIndex)
  }

  lemma KeysConcat(a: seq<Card>, b: seq<Card>)
    ensures Keys(a + b) == Keys(a) + Keys(b)
  {
  }

  /** The indices lo, lo+1, ..., lo+n-1. */
  function Span(lo: int, n: nat): (r: seq<int>)
    ensures |r| == n
    ensures forall i :: 0 <= i < n ==> r[i] == lo + i
  {
    seq(n, i requires 0 <= i < n => lo + i)
  }

  lemma {:induction false} SpanCount(lo: int, n: nat, v: int)
    ensures multiset(Span(lo, n))[v] == if lo <= v < lo + n then 1 else 0
  {
    if n > 0 {
      assert Span(lo, n) == Span(lo, n - 1) + [lo + n - 1];
      SpanCount(lo, n - 1, v);
    }
  }

  /** A column's indices are a permutation of 0 .. n-1. */
  predicate Contiguous(cards: seq<Card>, category: string) {
    var column := InCategory(cards, category);
    multiset(Keys(column)) == multiset(Span(0, |column|))
  }

  predicate SortedByIndex(cards: seq<Card>) {
    forall i, j :: 0 <= i < j < |cards| ==> cards[i].task.columnIndex <= cards[j].task.columnIndex
  }

  lemma SortedAppend(s: seq<Card>, x: Card)
    requires SortedByIndex(s)
    requires forall i :: 0 <= i < |s| ==> s[i].task.columnIndex <= x.task.columnIndex
    ensures SortedByIndex(s + [x])
  {
  }

  /** Every card of a permutation of `s + [c]` is bounded when those of `s` and `c` are. */
  lemma BoundedPermutation(r: seq<Card>, s: seq<Card>, c: Card, bound: int)
    requires multiset(r) == multiset(s) + multiset{c}
    requires forall i :: 0 <= i < |s| ==> s[i].task.columnIndex <= bound
    requires c.task.columnIndex <= bound
    ensures forall i :: 0 <= i < |r| ==> r[i].task.columnIndex <= bound
  {
    forall i | 0 <= i < |r| ensures r[i].task.columnIndex <= bound {
      assert r[i] in multiset(r);
      if r[i] != c {
        assert r[i] in multiset(s);
        var j :| 0 <= j < |s| && s[j] == r[i];
      }
    }
  }

  /**
   * Inserts `c` after the last card, counting from the end, whose index is
   * at most `c`'s. On a sorted list this keeps it sorted and puts `c` after
   * its equals, which is what makes the sort below stable.
   */
  function InsertByIndex(s: seq<Card>, c: Card): (r: seq<Card>)
    ensures multiset(r) == multiset(s) + multiset{c}
    ensures |r| == |s| + 1
  {
    var n := |s|;
    if n == 0 || s[n - 1].task.columnIndex <= c.task.columnIndex then s + [c]
    else
      assert s == s[..n - 1] + [s[n - 1]];
      InsertByIndex(s[..n - 1], c) + [s[n - 1]]
  }

  lemma {:induction false} InsertKeepsSorted(s: seq<Card>, c: Card)
    requires SortedByIndex(s)
    ensures SortedByIndex(InsertByIndex(s, c))
  {
    var n := |s|;
    if n == 0 || s[n - 1].task.columnIndex <= c.task.columnIndex {
      SortedAppend(s, c);
    } else {
      var s' := s[..n - 1];
      InsertKeepsSorted(s', c);
      BoundedPermutation(InsertByIndex(s', c), s', c, s[n - 1].task.columnIndex);
      SortedAppend(InsertByIndex(s', c), s[n - 1]);
    }
  }

  /** OrderBy(x => x.ColumnIndex): insertion sort, taking the input from the front. */
  function SortByIndex(cards: seq<Card>): (r: seq<Card>)
    ensures multiset(r) == multiset(cards)
    ensures |r| == |cards|
  {
    if |cards| == 0 then []
    else
      assert cards == cards[..|cards| - 1] + [cards[|cards| - 1]];
      InsertByIndex(SortByIndex(cards[..|cards| - 1]), cards[|cards| - 1])
  }

  /** The sort's output is in non-decreasing index order. */
  lemma {:induction false} SortIsSorted(cards: seq<Card>)
    ensures SortedByIndex(SortByIndex(cards))
  {
    if |cards| > 0 {
      SortIsSorted(cards[..|cards| - 1]);
      InsertKeepsSorted(SortByIndex(cards[..|cards| - 1]), cards[|cards| - 1]);
    }
  }

  lemma {:induction false} FilterKeepsSorted(s: seq<Card>, p: Card -> bool)
    requires SortedByIndex(s)
    ensures SortedByIndex(Filter(s, p))
  {
    if |s| > 0 {
      var s' := s[..|s| - 1];
      FilterKeepsSorted(s', p);
      var f := Filter(s', p);
      FilterMembers(s', p);
      forall i | 0 <= i < |f| ensures f[i].task.columnIndex <= s[|s| - 1].task.columnIndex {
        assert f[i] in f;
      }
    }
  }

  lemma FilterSingleton(c: Card, p: Card -> bool)
    ensures Filter([c], p) == if p(c) then [c] else []
  {
    assert [c][..0] == [];
  }

  /** Filtering keeps an upper bound on the indices. */
  lemma FilterBounded(t: seq<Card>, p: Card -> bool, bound: int)
    requires forall i :: 0 <= i < |t| ==> t[i].task.columnIndex <= bound
    ensures forall i :: 0 <= i < |Filter(t, p)| ==> Filter(t, p)[i].task.columnIndex <= bound
  {
    var f := Filter(t, p);
    FilterMembers(t, p);
    forall i | 0 <= i < |f| ensures f[i].task.columnIndex <= bound {
      assert f[i] in t;
    }
  }

  /** Inserting a card that bounds every index of `t` appends it. */
  lemma InsertAtEnd(t: seq<Card>, c: Card)
    requires forall i :: 0 <= i < |t| ==> t[i].task.columnIndex <= c.task.columnIndex
    ensures InsertByIndex(t, c) == t + [c]
  {
    if |t| > 0 {
      assert t[|t| - 1].task.columnIndex <= c.task.columnIndex;
    }
  }

  /** The filtered form of inserting `c` after every card of `t`. */
  lemma InsertAtEndCommutesWithFilter(t: seq<Card>, c: Card, p: Card -> bool)
    requires forall i :: 0 <= i < |t| ==> t[i].task.columnIndex <= c.task.columnIndex
    ensures Filter(InsertByIndex(t, c), p) == if p(c) then InsertByIndex(Filter(t, p), c) else Filter(t, p)
  {
    InsertAtEnd(t, c);
    FilterConcat(t, [c], p);
    FilterSingleton(c, p);
    if p(c) {
      FilterBounded(t, p, c.task.columnIndex);
      InsertAtEnd(Filter(t, p), c);
    }
  }

  /** The filtered form of inserting `c` before the last card of `t`, given the shorter case. */
  lemma InsertInsideCommutesWithFilter(t: seq<Card>, c: Card, p: Card -> bool)
    requires |t| > 0 && t[|t| - 1].task.columnIndex > c.task.columnIndex
    requires Filter(InsertByIndex(t[..|t| - 1], c), p)
             == if p(c) then InsertByIndex(Filter(t[..|t| - 1], p), c) else Filter(t[..|t| - 1], p)
    ensures Filter(InsertByIndex(t, c), p) == if p(c) then InsertByIndex(Filter(t, p), c) else Filter(t, p)
  {
    var f := Filter(t, p);
    var t' := t[..|t| - 1];
    var last := t[|t| - 1];
    var fl := if p(last) then [last] else [];
    var ins' := InsertByIndex(t', c);
    assert InsertByIndex(t, c) == ins' + [last];
    FilterConcat(ins', [last], p);
    FilterSingleton(last, p);
    var f' := Filter(t', p);
    assert f == f' + fl;
    assert Filter(InsertByIndex(t, c), p) == Filter(ins', p) + fl;
    if p(c) {
      assert Filter(ins', p) == InsertByIndex(f', c);
      if p(last) {
        assert f[..|f| - 1] == f';
        assert InsertByIndex(f, c) == InsertByIndex(f', c) + [last];
      } else {
        assert f == f';
      }
    } else {
      assert Filter(ins', p) == f';
    }
  }

  lemma {:induction false} InsertCommutesWithFilter(t: seq<Card>, c: Card, p: Card -> bool)
    requires SortedByIndex(t)
    ensures Filter(InsertByIndex(t, c), p) == if p(c) then InsertByIndex(Filter(t, p), c) else Filter(t, p)
    decreases |t|
  {
    if |t| == 0 || t[|t| - 1].task.columnIndex <= c.task.columnIndex {
      assert forall i :: 0 <= i < |t| ==> t[i].task.columnIndex <= t[|t| - 1].task.columnIndex;
      InsertAtEndCommutesWithFilter(t, c, p);
    } else {
      assert SortedByIndex(t[..|t| - 1]);
      InsertCommutesWithFilter(t[..|t| - 1], c, p);
      InsertInsideCommutesWithFilter(t, c, p);
    }
  }

  /** Filtering a stably sorted list is the same as stably sorting the filtered list. */
  lemma {:induction false} SortCommutesWithFilter(s: seq<Card>, p: Card -> bool)
    ensures Filter(SortByIndex(s), p) == SortByIndex(Filter(s, p))
  {
    if |s| > 0 {
      var s' := s[..|s| - 1];
      var last := s[|s| - 1];
      SortCommutesWithFilter(s', p);
      SortIsSorted(s');
      InsertCommutesWithFilter(SortByIndex(s'), last, p);
      assert SortByIndex(s) == InsertByIndex(SortByIndex(s'), last);
      var f := Filter(s, p);
      assert f == Filter(s', p) + (if p(last) then [last] else []);
      if p(last) {
        assert f[..|f| - 1] == Filter(s', p);
        assert f[|f| - 1] == last;
        assert SortByIndex(f) == InsertByIndex(SortByIndex(Filter(s', p)), last);
      } else {
        assert f == Filter(s', p);
      }
    }
  }

  /** Dropping the last card of a sorted list leaves it sorted and bounded by that card. */
  lemma SortedPrefix(s: seq<Card>)
    requires |s| > 0 && SortedByIndex(s)
    ensures SortedByIndex(s[..|s| - 1])
    ensures forall i :: 0 <= i < |s| - 1 ==> s[i].task.columnIndex <= s[|s| - 1].task.columnIndex
  {
  }

  /** Sorting a list that is already in index order leaves it as it is. */
  lemma {:induction false} SortOfSorted(s: seq<Card>)
    requires SortedByIndex(s)
    ensures SortByIndex(s) == s
  {
    if |s| > 0 {
      var s' := s[..|s| - 1];
      var last := s[|s| - 1];
      SortedPrefix(s);
      SortOfSorted(s');
      InsertAtEnd(s', last);
      calc {
        SortByIndex(s);
        InsertByIndex(SortByIndex(s'), last);
        InsertByIndex(s', last);
        s' + [last];
        { assert s == s' + [last]; }
        s;
      }
    }
  }

  /**
   * Stability: for every index value, the cards holding it appear in the
   * sorted list in the order they had in the input.
   */
  lemma SortIsStable(s: seq<Card>, k: int)
    ensures Filter(SortByIndex(s), (c: Card) => c.task.columnIndex == k)
         == Filter(s, (c: Card) => c.task.columnIndex == k)
  {
    var p := (c: Card) => c.task.columnIndex == k;
    SortCommutesWithFilter(s, p);
    var f := Filter(s, p);
    FilterMembers(s, p);
    forall i, j | 0 <= i < j < |f| ensures f[i].task.columnIndex <= f[j].task.columnIndex {
      assert f[i] in f && f[j] in f;
    }
    SortOfSorted(f);
  }

  lemma {:induction false} InsertKeys(t: seq<Card>, c: Card)
    ensures multiset(Keys(InsertByIndex(t, c))) == multiset(Keys(t)) + multiset{c.task.columnIndex}
    decreases |t|
  {
    if |t| == 0 || t[|t| - 1].task.columnIndex <= c.task.columnIndex {
      KeysConcat(t, [c]);
    } else {
      var t' := t[..|t| - 1];
      var last := t[|t| - 1];
      assert Keys([last]) == [last.task.columnIndex];
      calc {
        multiset(Keys(InsertByIndex(t, c)));
        multiset(Keys(InsertByIndex(t', c) + [last]));
        { KeysConcat(InsertByIndex(t', c), [last]); }
        multiset(Keys(InsertByIndex(t', c))) + multiset{last.task.columnIndex};
        { InsertKeys(t', c); }
        multiset(Keys(t')) + multiset{c.task.columnIndex} + multiset{last.task.columnIndex};
        { KeysSnoc(t); }
        multiset(Keys(t)) + multiset{c.task.columnIndex};
      }
    }
  }

  lemma KeysSnoc(s: seq<Card>)
    requires |s| > 0
    ensures multiset(Keys(s)) == multiset(Keys(s[..|s| - 1])) + multiset{s[|s| - 1].task.columnIndex}
  {
    KeysConcat(s[..|s| - 1], [s[|s| - 1]]);
    assert s == s[..|s| - 1] + [s[|s| - 1]];
  }

  /** Sorting moves cards but keeps the multiset of indices they hold. */
  lemma {:induction false} SortKeys(s: seq<Card>)
    ensures multiset(Keys(SortByIndex(s))) == multiset(Keys(s))
  {
    if |s| > 0 {
      var s' := s[..|s| - 1];
      var last := s[|s| - 1];
      SortKeys(s');
      InsertKeys(SortByIndex(s'), last);
      KeysSnoc(s);
      assert SortByIndex(s) == InsertByIndex(SortByIndex(s'), last);
    }
  }

  /** Sorting the board keeps every column contiguous that was contiguous. */
  lemma SortKeepsContiguous(s: seq<Card>, category: string)
    ensures Contiguous(SortByIndex(s), category) <==> Contiguous(s, category)
  {
    SortCommutesWithFilter(s, (c: Card) => c.task.category == category);
    SortKeys(InCategory(s, category));
  }

  /** In a sorted list holding the indices lo .. lo+n-1, the last card holds the largest. */
  lemma SortedSpanLast(s: seq<Card>, lo: int)
    requires |s| > 0 && SortedByIndex(s)
    requires multiset(Keys(s)) == multiset(Span(lo, |s|))
    ensures s[|s| - 1].task.columnIndex == lo + |s| - 1
  {
    var n := |s|;
    var top := lo + n - 1;
    var last := s[n - 1].task.columnIndex;
    SpanCount(lo, n, top);
    assert top in multiset(Keys(s));
    var j :| 0 <= j < n && Keys(s)[j] == top;
    assert last >= top;
    SpanCount(lo, n, last);
    assert last in multiset(Keys(s));
  }

  /** Extending a span by one adds its new top value. */
  lemma SpanSnoc(lo: int, n: nat)
    ensures multiset(Span(lo, n + 1)) == multiset(Span(lo, n)) + multiset{lo + n}
    ensures multiset(Span(lo, n)) == multiset(Span(lo, n + 1)) - multiset{lo + n}
  {
    assert Span(lo, n + 1) == Span(lo, n) + [lo + n];
  }

  /** Dropping the card holding the top index leaves a permutation of the rest. */
  lemma SpanPrefix(s: seq<Card>, lo: int)
    requires |s| > 0 && s[|s| - 1].task.columnIndex == lo + |s| - 1
    requires multiset(Keys(s)) == multiset(Span(lo, |s|))
    ensures multiset(Keys(s[..|s| - 1])) == multiset(Span(lo, |s| - 1))
  {
    KeysSnoc(s);
    SpanSnoc(lo, |s| - 1);
  }

  /**
   * A sorted list whose indices are a permutation of lo .. lo+n-1 holds them
   * in exactly that order.
   */
  lemma {:induction false} SortedSpanIsConsecutive(s: seq<Card>, lo: int)
    requires SortedByIndex(s)
    requires multiset(Keys(s)) == multiset(Span(lo, |s|))
    ensures forall k :: 0 <= k < |s| ==> s[k].task.columnIndex == lo + k
  {
    if |s| > 0 {
      var n := |s|;
      var s' := s[..n - 1];
      SortedSpanLast(s, lo);
      SpanPrefix(s, lo);
      SortedPrefix(s);
      SortedSpanIsConsecutive(s', lo);
      forall k | 0 <= k < n ensures s[k].task.columnIndex == lo + k {
        if k < n - 1 {
          assert s[k] == s'[k];
        }
      }
    }
  }

  // ---------------------------------------------------------------------------
  // What the sort keeps: object identities and task data

  /** Inserting an object not yet in a list of distinct objects keeps them distinct. */
  lemma {:induction false} InsertKeepsDistinct(s: seq<Card>, c: Card)
    requires DistinctRefs(s)
    requires forall i :: 0 <= i < |s| ==> s[i].ref != c.ref
    ensures DistinctRefs(InsertByIndex(s, c))
  {
    var n := |s|;
    if n > 0 && s[n - 1].task.columnIndex > c.task.columnIndex {
      var s' := s[..n - 1];
      var last := s[n - 1];
      InsertKeepsDistinct(s', c);
      var r' := InsertByIndex(s', c);
      forall i | 0 <= i < |r'| ensures r'[i].ref != last.ref {
        assert r'[i] in multiset(r');
        if r'[i] != c {
          assert r'[i] in multiset(s');
          var j :| 0 <= j < |s'| && s'[j] == r'[i];
          assert s[j] == r'[i];
        }
      }
    }
  }

  /** The sort keeps a list of distinct objects distinct. */
  lemma {:induction false} SortKeepsDistinct(cards: seq<Card>)
    requires DistinctRefs(cards)
    ensures DistinctRefs(SortByIndex(cards))
  {
    if |cards| > 0 {
      var s' := cards[..|cards| - 1];
      var last := cards[|cards| - 1];
      SortKeepsDistinct(s');
      var t := SortByIndex(s');
      forall i | 0 <= i < |t| ensures t[i].ref != last.ref {
        assert t[i] in multiset(t);
        assert t[i] in multiset(s');
        var j :| 0 <= j < |s'| && s'[j] == t[i];
        assert cards[j] == t[i];
      }
      InsertKeepsDistinct(t, last);
    }
  }

  lemma ContentsSnoc(s: seq<Card>, x: Card)
    ensures Contents(s + [x]) == Contents(s) + [x.task]
  {
  }

  /** Inserting cards with equal data into lists with equal data gives lists with equal data. */
  lemma {:induction false} InsertContents(s: seq<Card>, t: seq<Card>, c: Card, d: Card)
    requires Contents(s) == Contents(t) && c.task == d.task
    ensures Contents(InsertByIndex(s, c)) == Contents(InsertByIndex(t, d))
  {
    var n := |s|;
    assert |t| == n;
    if n == 0 || s[n - 1].task.columnIndex <= c.task.columnIndex {
      assert n > 0 ==> Contents(s)[n - 1] == Contents(t)[n - 1];
      ContentsSnoc(s, c);
      ContentsSnoc(t, d);
    } else {
      assert Contents(s)[n - 1] == Contents(t)[n - 1];
      assert t[n - 1].task == s[n - 1].task;
      var s' := s[..n - 1];
      var t' := t[..n - 1];
      assert Contents(s') == Contents(s)[..n - 1];
      assert Contents(t') == Contents(t)[..n - 1];
      InsertContents(s', t', c, d);
      ContentsSnoc(InsertByIndex(s', c), s[n - 1]);
      ContentsSnoc(InsertByIndex(t', d), t[n - 1]);
    }
  }

  /** The sort looks only at task data: lists with equal data sort to lists with equal data. */
  lemma {:induction false} SortContents(x: seq<Card>, y: seq<Card>)
    requires Contents(x) == Contents(y)
    ensures Contents(SortByIndex(x)) == Contents(SortByIndex(y))
  {
    var n := |x|;
    assert |y| == n;
    if n > 0 {
      var x' := x[..n - 1];
      var y' := y[..n - 1];
      assert Contents(x') == Contents(x)[..n - 1];
      assert Contents(y') == Contents(y)[..n - 1];
      assert Contents(x)[n - 1] == Contents(y)[n - 1];
      SortContents(x', y');
      InsertContents(SortByIndex(x'), SortByIndex(y'), x[n - 1], y[n - 1]);
    }
  }
}
