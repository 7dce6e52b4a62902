/**
 * Column-index bookkeeping: where a new card goes, how the cards behind a
 * deleted one are re-packed, and how a column rename relabels its cards.
 */
module ColumnIndex {
  import opened Wrappers
  import opened Tasks
  import opened Ordering
  import opened Effects

  // ---------------------------------------------------------------------------
  // Append on create

  /** The cards of a column are the cards of the board in that column. */
  lemma InCategoryMembers(cards: seq<Card>, category: string)
    ensures forall c :: c in InCategory(cards, category) <==> c in cards && c.task.category == category
  {
    FilterMembers(cards, (c: Card) => c.task.category == category);
  }

  /** On a contiguous column, no card holds the index one past the last. */
  lemma CountIsFresh(cards: seq<Card>, category: string)
    requires Contiguous(cards, category)
    ensures forall i :: 0 <= i < |cards| && cards[i].task.category == category ==>
              cards[i].task.columnIndex != CountIn(cards, category)
  {
    var column := InCategory(cards, category);
    var n := |column|;
    InCategoryMembers(cards, category);
    SpanCount(0, n, n);
    forall i | 0 <= i < |cards| && cards[i].task.category == category
      ensures cards[i].task.columnIndex != n
    {
      assert cards[i] in column;
      var j :| 0 <= j < n && column[j] == cards[i];
      assert Keys(column)[j] == cards[i].task.columnIndex;
      assert cards[i].task.columnIndex in multiset(Keys(column));
    }
  }

  /**
   * A card appended with the column's card count as its index: on a
   * contiguous column that index is held by no card of the column yet, and
   * the column stays contiguous. Every other column is untouched.
   */
  lemma AppendKeepsContiguous(cards: seq<Card>, c: Card)
    requires Contiguous(cards, c.task.category)
    requires c.task.columnIndex == CountIn(cards, c.task.category)
    ensures forall i :: 0 <= i < |cards| && cards[i].task.category == c.task.category ==>
              cards[i].task.columnIndex != c.task.columnIndex
    ensures Contiguous(cards + [c], c.task.category)
    ensures forall other :: other != c.task.category ==> InCategory(cards + [c], other) == InCategory(cards, other)
  {
    var category := c.task.category;
    var column := InCategory(cards, category);
    CountIsFresh(cards, category);
    forall other ensures InCategory(cards + [c], other) == (if other == category then column + [c] else InCategory(cards, other)) {
      InCategorySnoc(cards, c, other);
    }
    var n := |column|;
    KeysConcat(column, [c]);
    SpanSnoc(0, n);
    assert multiset(Keys(column + [c])) == multiset(Keys(column)) + multiset{n};
    assert multiset(Keys(InCategory(cards + [c], category))) == multiset(Span(0, n + 1));
  }

  // ---------------------------------------------------------------------------
  // Re-pack after a delete

  /** The cards a delete re-packs: same column as the deleted card, higher index. */
  predicate Trails(c: Card, category: string, deleted: int) {
    c.task.category == category && c.task.columnIndex > deleted
  }

  /** `Where(same column, higher index).OrderBy(ColumnIndex)`: the re-pack order. */
  function Trailing(cards: seq<Card>, category: string, deleted: int): seq<Card> {
    SortByIndex(Filter(cards, (c: Card) => Trails(c, category, deleted)))
  }

  /** The last position of object `ref` in `order`, if it is there at all. */
  function LastPosition(order: seq<Card>, ref: nat): (r: Option<nat>)
    ensures r.Some? ==> r.value < |order| && order[r.value].ref == ref
                        && forall j :: r.value < j < |order| ==> order[j].ref != ref
    ensures r.None? <==> forall j :: 0 <= j < |order| ==> order[j].ref != ref
  {
    if |order| == 0 then None
    else if order[|order| - 1].ref == ref then Some(|order| - 1)
    else LastPosition(order[..|order| - 1], ref)
  }

  /** What the re-pack loop leaves: the board's cards and the index updates it sent. */
  datatype Repacked = Repacked(cards: seq<Card>, updates: seq<Effect>)

  /**
   * The re-pack loop of DeleteTask, run on the board after the deleted card is
   * gone: the k-th card of the re-pack order is given index `deleted + k`,
   * written through to its object, and one index update per card is sent in
   * that order. The order is computed before the loop changes anything; an
   * object met twice keeps the later index.
   */
  function Repack(cards: seq<Card>, category: string, deleted: int): (r: Repacked)
    ensures |r.cards| == |cards|
    ensures |r.updates| == |Trailing(cards, category, deleted)|
    ensures forall k :: 0 <= k < |r.updates| ==>
              r.updates[k] == UpdateCardIndex(Trailing(cards, category, deleted)[k].task.id, deleted + k)
    ensures DistinctRefs(cards) ==> forall i :: 0 <= i < |cards| ==> RankedAt(cards, category, deleted, i, r.cards[i])
  {
    var order := Trailing(cards, category, deleted);
    var moved := seq(|cards|, i requires 0 <= i < |cards| => RepackCard(cards, category, deleted, i));
    assert DistinctRefs(cards) ==> forall i :: 0 <= i < |cards| ==> RankedAt(cards, category, deleted, i, moved[i]) by {
      if DistinctRefs(cards) {
        forall i | 0 <= i < |cards| ensures RankedAt(cards, category, deleted, i, moved[i]) {
          RepackCardRanked(cards, category, deleted, i);
        }
      }
    }
    Repacked(moved, seq(|order|, k requires 0 <= k < |order| => UpdateCardIndex(order[k].task.id, deleted + k)))
  }

  /** One step of the re-pack loop, seen from the card at position `i`: the last index the loop wrote to its object. */
  function RepackCard(cards: seq<Card>, category: string, deleted: int, i: nat): Card
    requires i < |cards|
  {
    match LastPosition(Trailing(cards, category, deleted), cards[i].ref)
    case None => cards[i]
    case Some(k) => Card(cards[i].ref, cards[i].task.(columnIndex := deleted + k))
  }

  /** On distinct objects, the loop's last write to a card is its rank in the re-pack order. */
  lemma RepackCardRanked(cards: seq<Card>, category: string, deleted: int, i: nat)
    requires DistinctRefs(cards) && i < |cards|
    ensures RankedAt(cards, category, deleted, i, RepackCard(cards, category, deleted, i))
  {
    var order := Trailing(cards, category, deleted);
    var pos := LastPosition(order, cards[i].ref);
    if Trails(cards[i], category, deleted) {
      TrailingMembers(cards, category, deleted);
      assert cards[i] in order;
      TrailingRefIsCard(cards, category, deleted, i, pos.value);
    } else if pos.Some? {
      TrailingRefIsCard(cards, category, deleted, i, pos.value);
      assert false;
    }
  }

  /**
   * What the re-pack makes of the card at position `i`: it is left alone
   * unless it trails the gap, and then it is found in the re-pack order and
   * given `deleted` plus its rank there.
   */
  predicate RankedAt(cards: seq<Card>, category: string, deleted: int, i: nat, moved: Card)
    requires i < |cards|
  {
    var order := Trailing(cards, category, deleted);
    && (!Trails(cards[i], category, deleted) ==> moved == cards[i])
    && (Trails(cards[i], category, deleted) ==>
          && LastPosition(order, cards[i].ref).Some?
          && order[LastPosition(order, cards[i].ref).value] == cards[i]
          && moved == Card(cards[i].ref, cards[i].task.(columnIndex := deleted + LastPosition(order, cards[i].ref).value)))
  }

  /** The re-pack changes task data only: every position holds the same object as before. */
  lemma RepackKeepsRefs(cards: seq<Card>, category: string, deleted: int)
    ensures forall i :: 0 <= i < |cards| ==> Repack(cards, category, deleted).cards[i].ref == cards[i].ref
  {
  }

  /**
   * The re-pack order holds exactly the trailing cards of the board, in
   * ascending index order.
   */
  lemma TrailingMembers(cards: seq<Card>, category: string, deleted: int)
    ensures forall c :: c in Trailing(cards, category, deleted) <==> c in cards && Trails(c, category, deleted)
    ensures SortedByIndex(Trailing(cards, category, deleted))
  {
    SortIsSorted(Filter(cards, (c: Card) => Trails(c, category, deleted)));
    var p := (c: Card) => Trails(c, category, deleted);
    FilterMembers(cards, p);
    var f := Filter(cards, p);
    assert multiset(Trailing(cards, category, deleted)) == multiset(f);
    forall c ensures c in Trailing(cards, category, deleted) <==> c in f {
      assert c in multiset(Trailing(cards, category, deleted)) <==> c in multiset(f);
    }
  }

  /** Under distinct objects, the re-pack entry of an object is that object's card. */
  lemma TrailingRefIsCard(cards: seq<Card>, category: string, deleted: int, i: nat, k: nat)
    requires DistinctRefs(cards) && i < |cards|
    requires k < |Trailing(cards, category, deleted)| && Trailing(cards, category, deleted)[k].ref == cards[i].ref
    ensures Trailing(cards, category, deleted)[k] == cards[i] && Trails(cards[i], category, deleted)
  {
    var order := Trailing(cards, category, deleted);
    TrailingMembers(cards, category, deleted);
    assert order[k] in order;
    var m :| 0 <= m < |cards| && cards[m] == order[k];
    assert m == i;
  }

  /** `Board.Tasks.Remove(task)` for the entry at position `p`. */
  function RemoveAt(cards: seq<Card>, p: nat): (r: seq<Card>)
    requires p < |cards|
    ensures |r| == |cards| - 1
    ensures forall i :: 0 <= i < p ==> r[i] == cards[i]
    ensures forall i :: p <= i < |r| ==> r[i] == cards[i + 1]
  {
    cards[..p] + cards[p + 1..]
  }

  lemma RemoveKeepsDistinct(cards: seq<Card>, p: nat)
    requires p < |cards| && DistinctRefs(cards)
    ensures DistinctRefs(RemoveAt(cards, p))
  {
    var r := RemoveAt(cards, p);
    forall i, j | 0 <= i < j < |r| ensures r[i].ref != r[j].ref {
      var i' := if i < p then i else i + 1;
      var j' := if j < p then j else j + 1;
      assert r[i] == cards[i'] && r[j] == cards[j'];
    }
  }

  /** Removing the card at `p` takes it out of its own column and leaves every other column as it was. */
  lemma RemoveFromColumns(cards: seq<Card>, p: nat)
    requires p < |cards|
    ensures var category := cards[p].task.category;
            InCategory(cards, category)
            == InCategory(cards[..p], category) + [cards[p]] + InCategory(cards[p + 1..], category)
    ensures var category := cards[p].task.category;
            InCategory(RemoveAt(cards, p), category)
            == InCategory(cards[..p], category) + InCategory(cards[p + 1..], category)
    ensures forall other :: other != cards[p].task.category ==>
              InCategory(RemoveAt(cards, p), other) == InCategory(cards, other)
  {
    RemoveSplits(cards, p, cards[p].task.category);
    forall other | other != cards[p].task.category
      ensures InCategory(RemoveAt(cards, p), other) == InCategory(cards, other)
    {
      RemoveSplits(cards, p, other);
    }
  }

  /** Column `other` of the list, split around the entry at `p`. */
  lemma RemoveSplits(cards: seq<Card>, p: nat, other: string)
    requires p < |cards|
    ensures InCategory(cards, other)
            == InCategory(cards[..p], other) + (if cards[p].task.category == other then [cards[p]] else [])
               + InCategory(cards[p + 1..], other)
    ensures InCategory(RemoveAt(cards, p), other) == InCategory(cards[..p], other) + InCategory(cards[p + 1..], other)
  {
    var x := cards[p];
    var q := (c: Card) => c.task.category == other;
    assert cards == cards[..p] + [x] + cards[p + 1..];
    FilterConcat(cards[..p] + [x], cards[p + 1..], q);
    FilterConcat(cards[..p], [x], q);
    FilterConcat(cards[..p], cards[p + 1..], q);
    FilterSingleton(x, q);
  }

  /** The indices of the removed card's column lose exactly the removed index. */
  lemma RemovedKeys(cards: seq<Card>, p: nat)
    requires p < |cards|
    ensures var category := cards[p].task.category;
            multiset(Keys(InCategory(cards, category)))
            == multiset(Keys(InCategory(RemoveAt(cards, p), category))) + multiset{cards[p].task.columnIndex}
    ensures var category := cards[p].task.category;
            cards[p].task.columnIndex in multiset(Keys(InCategory(cards, category)))
  {
    var category := cards[p].task.category;
    RemoveFromColumns(cards, p);
    var a := InCategory(cards[..p], category);
    var b := InCategory(cards[p + 1..], category);
    KeysConcat(a + [cards[p]], b);
    KeysConcat(a, [cards[p]]);
    KeysConcat(a, b);
  }

  lemma {:induction false} FilterFilter(s: seq<Card>, p: Card -> bool, q: Card -> bool, both: Card -> bool)
    requires forall c :: both(c) == (p(c) && q(c))
    ensures Filter(Filter(s, p), q) == Filter(s, both)
  {
    if |s| > 0 {
      var s' := s[..|s| - 1];
      var x := s[|s| - 1];
      FilterFilter(s', p, q, both);
      FilterSingleton(x, p);
      FilterSingleton(x, q);
      FilterConcat(Filter(s', p), if p(x) then [x] else [], q);
    }
  }

  /** Keeping the cards above `deleted` keeps exactly the indices above `deleted`. */
  lemma {:induction false} KeysAboveCount(t: seq<Card>, deleted: int, above: Card -> bool, v: int)
    requires forall c :: above(c) == (c.task.columnIndex > deleted)
    ensures multiset(Keys(Filter(t, above)))[v] == if v > deleted then multiset(Keys(t))[v] else 0
  {
    if |t| > 0 {
      var t' := t[..|t| - 1];
      var x := t[|t| - 1];
      KeysAboveCount(t', deleted, above, v);
      KeysSnoc(t);
      KeysConcat(Filter(t', above), if above(x) then [x] else []);
    }
  }

  /** Each index above `deleted` moves down by one. */
  function KeysDown(ks: seq<int>, deleted: int): seq<int> {
    seq(|ks|, i requires 0 <= i < |ks| => if ks[i] > deleted then ks[i] - 1 else ks[i])
  }

  lemma SnocCount(s: seq<int>, v: int)
    requires |s| > 0
    ensures multiset(s)[v] == multiset(s[..|s| - 1])[v] + if s[|s| - 1] == v then 1 else 0
  {
    assert s == s[..|s| - 1] + [s[|s| - 1]];
    assert multiset(s) == multiset(s[..|s| - 1]) + multiset{s[|s| - 1]};
  }

  lemma KeysDownSnoc(ks: seq<int>, deleted: int)
    requires |ks| > 0
    ensures KeysDown(ks, deleted)[..|ks| - 1] == KeysDown(ks[..|ks| - 1], deleted)
    ensures KeysDown(ks, deleted)[|ks| - 1] == if ks[|ks| - 1] > deleted then ks[|ks| - 1] - 1 else ks[|ks| - 1]
  {
  }

  /** One step of the count: the last index, moved down or not, adds to exactly one side. */
  lemma CountStep(down: int, down': int, at: int, at': int, next: int, next': int, last: int, moved: int, deleted: int, v: int)
    requires moved == if last > deleted then last - 1 else last
    requires down == down' + if moved == v then 1 else 0
    requires at == at' + if last == v then 1 else 0
    requires next == next' + if last == v + 1 then 1 else 0
    requires down' == (if v <= deleted then at' else 0) + (if v >= deleted then next' else 0)
    ensures down == (if v <= deleted then at else 0) + (if v >= deleted then next else 0)
  {
  }

  /** How often `v` occurs after moving down: as `v` at or below `deleted`, or as `v + 1` above it. */
  lemma {:induction false} KeysDownCount(ks: seq<int>, deleted: int, v: int)
    ensures multiset(KeysDown(ks, deleted))[v]
            == (if v <= deleted then multiset(ks)[v] else 0) + (if v >= deleted then multiset(ks)[v + 1] else 0)
  {
    if |ks| > 0 {
      var ks' := ks[..|ks| - 1];
      var last := ks[|ks| - 1];
      var moved := if last > deleted then last - 1 else last;
      KeysDownCount(ks', deleted, v);
      KeysDownSnoc(ks, deleted);
      SnocCount(ks, v);
      SnocCount(ks, v + 1);
      SnocCount(KeysDown(ks, deleted), v);
      CountStep(multiset(KeysDown(ks, deleted))[v], multiset(KeysDown(ks', deleted))[v],
                multiset(ks)[v], multiset(ks')[v], multiset(ks)[v + 1], multiset(ks')[v + 1],
                last, KeysDown(ks, deleted)[|ks| - 1], deleted, v);
    } else {
      assert ks == [] && KeysDown(ks, deleted) == [];
    }
  }

  /** A card after a delete at index `deleted` of `category`: a trailing card moves up one place. */
  function Lowered(c: Card, category: string, deleted: int): Card {
    if Trails(c, category, deleted) then Card(c.ref, c.task.(columnIndex := c.task.columnIndex - 1)) else c
  }

  function LowerAll(cards: seq<Card>, category: string, deleted: int): (r: seq<Card>)
    ensures |r| == |cards|
    ensures forall i :: 0 <= i < |cards| ==> r[i] == Lowered(cards[i], category, deleted)
  {
    seq(|cards|, i requires 0 <= i < |cards| => Lowered(cards[i], category, deleted))
  }

  /** Lowering a list with one more card lowers that card and leaves the rest as before. */
  lemma LowerAllSnoc(a: seq<Card>, x: Card, category: string, deleted: int)
    ensures LowerAll(a + [x], category, deleted) == LowerAll(a, category, deleted) + [Lowered(x, category, deleted)]
  {
  }

  /** Lowering keeps every card in its column: the lowered column is the column lowered. */
  lemma {:induction false} LowerOwnColumn(cards: seq<Card>, category: string, deleted: int)
    ensures InCategory(LowerAll(cards, category, deleted), category) == LowerAll(InCategory(cards, category), category, deleted)
  {
    if |cards| > 0 {
      var s' := cards[..|cards| - 1];
      var x := cards[|cards| - 1];
      var y := Lowered(x, category, deleted);
      LowerOwnColumn(s', category, deleted);
      assert cards == s' + [x];
      LowerAllSnoc(s', x, category, deleted);
      InCategorySnoc(LowerAll(s', category, deleted), y, category);
      InCategorySnoc(s', x, category);
      if x.task.category == category {
        LowerAllSnoc(InCategory(s', category), x, category, deleted);
      }
    }
  }

  /** Lowering one column leaves every other column as it was. */
  lemma {:induction false} LowerOtherColumn(cards: seq<Card>, category: string, deleted: int, other: string)
    requires other != category
    ensures InCategory(LowerAll(cards, category, deleted), other) == InCategory(cards, other)
  {
    if |cards| > 0 {
      var s' := cards[..|cards| - 1];
      var x := cards[|cards| - 1];
      LowerOtherColumn(s', category, deleted, other);
      assert cards == s' + [x];
      LowerAllSnoc(s', x, category, deleted);
      InCategorySnoc(LowerAll(s', category, deleted), Lowered(x, category, deleted), other);
      InCategorySnoc(s', x, other);
    }
  }

  /** The indices of a lowered column are the column's indices moved down. */
  lemma LoweredKeys(column: seq<Card>, category: string, deleted: int)
    requires forall i :: 0 <= i < |column| ==> column[i].task.category == category
    ensures Keys(LowerAll(column, category, deleted)) == KeysDown(Keys(column), deleted)
  {
  }

  /** The trailing cards of a board are the cards of the column above the deleted index. */
  lemma TrailingAreAbove(cards: seq<Card>, category: string, deleted: int)
    ensures Filter(cards, (c: Card) => Trails(c, category, deleted))
            == Filter(InCategory(cards, category), (c: Card) => c.task.columnIndex > deleted)
  {
    FilterFilter(cards, (c: Card) => c.task.category == category, (c: Card) => c.task.columnIndex > deleted,
                 (c: Card) => Trails(c, category, deleted));
  }

  /**
   * Removing the card at index `deleted` from a contiguous column of n cards
   * leaves the indices 0 .. n-1 except `deleted`, and `deleted` was one of them.
   */
  lemma RemovedColumnCounts(cards: seq<Card>, p: nat)
    requires p < |cards| && Contiguous(cards, cards[p].task.category)
    ensures 0 <= cards[p].task.columnIndex < CountIn(cards, cards[p].task.category)
    ensures CountIn(RemoveAt(cards, p), cards[p].task.category) == CountIn(cards, cards[p].task.category) - 1
    ensures forall v :: multiset(Keys(InCategory(RemoveAt(cards, p), cards[p].task.category)))[v]
                        == if 0 <= v < CountIn(cards, cards[p].task.category) && v != cards[p].task.columnIndex then 1 else 0
  {
    var category := cards[p].task.category;
    var deleted := cards[p].task.columnIndex;
    var n := CountIn(cards, category);
    var before := multiset(Keys(InCategory(cards, category)));
    var after := multiset(Keys(InCategory(RemoveAt(cards, p), category)));
    RemovedKeys(cards, p);
    assert before == after + multiset{deleted};
    assert before == multiset(Span(0, n));
    SpanCount(0, n, deleted);
    assert |after| + 1 == |before| == n;
    forall v ensures after[v] == if 0 <= v < n && v != deleted then 1 else 0 {
      SpanCount(0, n, v);
      assert before[v] == after[v] + (if v == deleted then 1 else 0);
    }
  }

  /** The count arithmetic of keeping the indices above the gap at `deleted` in 0 .. n-1. */
  lemma AboveGap(atAbove: nat, at: nat, n: int, deleted: int, v: int)
    requires 0 <= deleted < n
    requires at == if 0 <= v < n && v != deleted then 1 else 0
    requires atAbove == if v > deleted then at else 0
    ensures atAbove == if deleted + 1 <= v < deleted + 1 + (n - 1 - deleted) then 1 else 0
  {
  }

  /** The trailing cards left after the removal hold the indices deleted+1 .. n-1. */
  lemma TrailingKeys(cards: seq<Card>, p: nat)
    requires p < |cards| && Contiguous(cards, cards[p].task.category)
    ensures var category := cards[p].task.category;
            var deleted := cards[p].task.columnIndex;
            && 0 <= deleted < CountIn(cards, category)
            && multiset(Keys(Filter(RemoveAt(cards, p), (c: Card) => Trails(c, category, deleted))))
            == multiset(Span(deleted + 1, CountIn(cards, category) - 1 - deleted))
  {
    var category := cards[p].task.category;
    var deleted := cards[p].task.columnIndex;
    var n := CountIn(cards, category);
    var s := RemoveAt(cards, p);
    var column := InCategory(s, category);
    var above := (c: Card) => c.task.columnIndex > deleted;
    RemovedColumnCounts(cards, p);
    TrailingAreAbove(s, category, deleted);
    var m := multiset(Keys(column));
    forall v ensures multiset(Keys(Filter(column, above)))[v] == multiset(Span(deleted + 1, n - 1 - deleted))[v] {
      KeysAboveCount(column, deleted, above, v);
      SpanCount(deleted + 1, n - 1 - deleted, v);
      AboveGap(multiset(Keys(Filter(column, above)))[v], m[v], n, deleted, v);
    }
    assert multiset(Keys(Filter(column, above))) == multiset(Span(deleted + 1, n - 1 - deleted));
  }

  /**
   * After removing a card from a contiguous column, the re-pack order holds
   * the cards that were above it, in the order of their indices, which run
   * consecutively from one past the removed index.
   */
  lemma TrailingConsecutive(cards: seq<Card>, p: nat)
    requires p < |cards| && Contiguous(cards, cards[p].task.category)
    ensures var category := cards[p].task.category;
            var deleted := cards[p].task.columnIndex;
            var order := Trailing(RemoveAt(cards, p), category, deleted);
            forall k :: 0 <= k < |order| ==> order[k].task.columnIndex == deleted + 1 + k
  {
    var category := cards[p].task.category;
    var deleted := cards[p].task.columnIndex;
    var f := Filter(RemoveAt(cards, p), (c: Card) => Trails(c, category, deleted));
    var order := SortByIndex(f);
    var lo := deleted + 1;
    TrailingKeys(cards, p);
    var m: nat := CountIn(cards, category) - 1 - deleted;
    assert multiset(Keys(order)) == multiset(Span(lo, |order|)) by {
      SortKeys(f);
      assert |Keys(order)| == |multiset(Keys(order))| == |multiset(Span(lo, m))| == |Span(lo, m)|;
    }
    SortIsSorted(f);
    SortedSpanIsConsecutive(order, lo);
  }

  /** One index update per card, moving it down one place within its column. */
  function MovedDown(order: seq<Card>): (r: seq<Effect>)
    ensures |r| == |order|
  {
    seq(|order|, k requires 0 <= k < |order| => UpdateCardIndex(order[k].task.id, order[k].task.columnIndex - 1))
  }

  /**
   * Re-packing a contiguous column after removing the task at `p` sends, for
   * every task above the gap in ascending order, an update that moves it down
   * exactly one place.
   */
  lemma RepackUpdatesMoveDown(cards: seq<Card>, p: nat)
    requires p < |cards| && Contiguous(cards, cards[p].task.category)
    ensures var category := cards[p].task.category;
            var deleted := cards[p].task.columnIndex;
            Repack(RemoveAt(cards, p), category, deleted).updates
            == MovedDown(Trailing(RemoveAt(cards, p), category, deleted))
  {
    TrailingConsecutive(cards, p);
  }

  /** The count arithmetic of closing the gap at `deleted` in 0 .. n-1. */
  lemma GapClosed(atV: nat, atNext: nat, n: int, deleted: int, v: int)
    requires 0 <= deleted < n
    requires atV == if 0 <= v < n && v != deleted then 1 else 0
    requires atNext == if 0 <= v + 1 < n && v + 1 != deleted then 1 else 0
    ensures (if v <= deleted then atV else 0) + (if v >= deleted then atNext else 0)
            == if 0 <= v < n - 1 then 1 else 0
  {
  }

  /** Moving down the indices above a gap in 0 .. n-1 yields 0 .. n-2. */
  lemma LoweredCounts(ks: seq<int>, n: int, deleted: int)
    requires 0 <= deleted < n
    requires forall v :: multiset(ks)[v] == if 0 <= v < n && v != deleted then 1 else 0
    ensures multiset(KeysDown(ks, deleted)) == multiset(Span(0, n - 1))
  {
    var m := multiset(ks);
    forall v ensures multiset(KeysDown(ks, deleted))[v] == multiset(Span(0, n - 1))[v] {
      KeysDownCount(ks, deleted, v);
      SpanCount(0, n - 1, v);
      GapClosed(m[v], m[v + 1], n, deleted, v);
    }
  }

  /** Lowering the cards above a removed index closes the gap: the column is contiguous again. */
  lemma LoweringCloses(cards: seq<Card>, p: nat)
    requires p < |cards| && Contiguous(cards, cards[p].task.category)
    ensures var category := cards[p].task.category;
            Contiguous(LowerAll(RemoveAt(cards, p), category, cards[p].task.columnIndex), category)
  {
    var category := cards[p].task.category;
    var deleted := cards[p].task.columnIndex;
    var n := CountIn(cards, category);
    var s := RemoveAt(cards, p);
    var column := InCategory(s, category);
    RemovedColumnCounts(cards, p);
    LowerOwnColumn(s, category, deleted);
    InCategoryMembers(s, category);
    forall i | 0 <= i < |column| ensures column[i].task.category == category {
      assert column[i] in column;
    }
    LoweredKeys(column, category, deleted);
    LoweredCounts(Keys(column), n, deleted);
  }

  /** Under distinct objects and a contiguous column, the re-pack is exactly the lowering. */
  lemma RepackLowers(cards: seq<Card>, p: nat)
    requires p < |cards| && DistinctRefs(cards)
    requires Contiguous(cards, cards[p].task.category)
    ensures var category := cards[p].task.category;
            var deleted := cards[p].task.columnIndex;
            Repack(RemoveAt(cards, p), category, deleted).cards == LowerAll(RemoveAt(cards, p), category, deleted)
  {
    var category := cards[p].task.category;
    var deleted := cards[p].task.columnIndex;
    var s := RemoveAt(cards, p);
    var r := Repack(s, category, deleted);
    var order := Trailing(s, category, deleted);
    RemoveKeepsDistinct(cards, p);
    TrailingConsecutive(cards, p);
    forall i | 0 <= i < |s| ensures r.cards[i] == Lowered(s[i], category, deleted) {
      assert RankedAt(s, category, deleted, i, r.cards[i]);
    }
  }

  /**
   * A successful delete on a board whose objects are distinct and whose
   * column is contiguous: every card that was above the deleted one in its
   * column moves up exactly one place and nothing else changes; the index
   * updates go out in ascending order of old index, one per moved card; the
   * column is contiguous again and every other column is as it was.
   */
  lemma DeleteRepacksColumn(cards: seq<Card>, p: nat)
    requires p < |cards| && DistinctRefs(cards)
    requires Contiguous(cards, cards[p].task.category)
    ensures var category := cards[p].task.category;
            var deleted := cards[p].task.columnIndex;
            Repack(RemoveAt(cards, p), category, deleted).cards == LowerAll(RemoveAt(cards, p), category, deleted)
    ensures var category := cards[p].task.category;
            var deleted := cards[p].task.columnIndex;
            var order := Trailing(RemoveAt(cards, p), category, deleted);
            forall k :: 0 <= k < |order| ==>
              Repack(RemoveAt(cards, p), category, deleted).updates[k]
              == UpdateCardIndex(order[k].task.id, order[k].task.columnIndex - 1)
    ensures var category := cards[p].task.category;
            Contiguous(Repack(RemoveAt(cards, p), category, cards[p].task.columnIndex).cards, category)
    ensures forall other :: other != cards[p].task.category ==>
              InCategory(Repack(RemoveAt(cards, p), cards[p].task.category, cards[p].task.columnIndex).cards, other)
              == InCategory(cards, other)
  {
    var category := cards[p].task.category;
    var deleted := cards[p].task.columnIndex;
    var s := RemoveAt(cards, p);
    RepackLowers(cards, p);
    TrailingConsecutive(cards, p);
    LoweringCloses(cards, p);
    forall other | other != category
      ensures InCategory(LowerAll(s, category, deleted), other) == InCategory(cards, other)
    {
      LowerOtherColumn(s, category, deleted, other);
      RemoveFromColumns(cards, p);
    }
  }

  // ---------------------------------------------------------------------------
  // Column rename

  /** A card after column `oldName` is renamed `newName`. */
  function Relabelled(c: Card, oldName: string, newName: string): Card {
    if c.task.category == oldName then Card(c.ref, c.task.(category := newName)) else c
  }

  function RelabelAll(cards: seq<Card>, oldName: string, newName: string): (r: seq<Card>)
    ensures |r| == |cards|
    ensures forall i :: 0 <= i < |cards| ==> r[i] == Relabelled(cards[i], oldName, newName)
  {
    seq(|cards|, i requires 0 <= i < |cards| => Relabelled(cards[i], oldName, newName))
  }

  /** One category update per card, in list order. */
  function NameUpdates(cards: seq<Card>, newName: string): (r: seq<Effect>)
    ensures |r| == |cards|
    ensures forall k :: 0 <= k < |cards| ==> r[k] == UpdateColumnName(cards[k].task.id, newName)
  {
    seq(|cards|, k requires 0 <= k < |cards| => UpdateColumnName(cards[k].task.id, newName))
  }

  /** What the rename loop leaves: the board's cards and the category updates it sent. */
  datatype Relabelling = Relabelling(cards: seq<Card>, updates: seq<Effect>)

  /**
   * The loop of EditColumn from position `i` on: a card that is (still) in
   * column `oldName` takes the new name, written through to its object, and
   * its category update is sent.
   */
  function RelabelFrom(cards: seq<Card>, i: nat, oldName: string, newName: string): (r: Relabelling)
    requires i <= |cards|
    ensures |r.cards| == |cards|
    ensures forall j :: 0 <= j < |cards| ==> r.cards[j].ref == cards[j].ref
    ensures |r.updates| <= |cards| - i
    decreases |cards| - i
  {
    if i == |cards| then Relabelling(cards, [])
    else if cards[i].task.category == oldName then
      var rest := RelabelFrom(SetTask(cards, cards[i].ref, cards[i].task.(category := newName)), i + 1, oldName, newName);
      Relabelling(rest.cards, [UpdateColumnName(cards[i].task.id, newName)] + rest.updates)
    else
      RelabelFrom(cards, i + 1, oldName, newName)
  }

  /** The whole rename loop of EditColumn. */
  function Relabel(cards: seq<Card>, oldName: string, newName: string): (r: Relabelling)
    ensures |r.cards| == |cards|
    ensures forall j :: 0 <= j < |cards| ==> r.cards[j].ref == cards[j].ref
    ensures |r.updates| <= |cards|
  {
    RelabelFrom(cards, 0, oldName, newName)
  }

  lemma NameUpdatesConcat(a: seq<Card>, b: seq<Card>, newName: string)
    ensures NameUpdates(a + b, newName) == NameUpdates(a, newName) + NameUpdates(b, newName)
  {
  }

  /** Under distinct objects, relabelling card `i` writes to that card alone. */
  lemma RelabelStep(cards: seq<Card>, i: nat, newName: string)
    requires i < |cards| && DistinctRefs(cards)
    ensures var next := SetTask(cards, cards[i].ref, cards[i].task.(category := newName));
            && DistinctRefs(next)
            && next[i] == Card(cards[i].ref, cards[i].task.(category := newName))
            && (forall j :: 0 <= j < |cards| && j != i ==> next[j] == cards[j])
            && next[i + 1..] == cards[i + 1..]
  {
    var next := SetTask(cards, cards[i].ref, cards[i].task.(category := newName));
    forall j | 0 <= j < |cards| && j != i ensures next[j] == cards[j] {
      assert cards[j].ref != cards[i].ref;
    }
    assert next[i + 1..] == cards[i + 1..];
  }

  lemma {:induction false} RelabelFromCards(cards: seq<Card>, i: nat, oldName: string, newName: string)
    requires i <= |cards| && DistinctRefs(cards)
    ensures forall j :: 0 <= j < |cards| ==>
              RelabelFrom(cards, i, oldName, newName).cards[j]
              == if j < i then cards[j] else Relabelled(cards[j], oldName, newName)
    decreases |cards| - i
  {
    if i < |cards| {
      var x := cards[i];
      if x.task.category == oldName {
        var next := SetTask(cards, x.ref, x.task.(category := newName));
        RelabelStep(cards, i, newName);
        RelabelFromCards(next, i + 1, oldName, newName);
      } else {
        RelabelFromCards(cards, i + 1, oldName, newName);
      }
    }
  }

  lemma InCategoryCons(x: Card, rest: seq<Card>, name: string)
    ensures InCategory([x] + rest, name) == (if x.task.category == name then [x] else []) + InCategory(rest, name)
  {
    FilterConcat([x], rest, (c: Card) => c.task.category == name);
    FilterSingleton(x, (c: Card) => c.task.category == name);
  }

  /** The update list of a hit: the hit card's update, then the rest's. */
  lemma HitUpdates(x: Card, rest: seq<Card>, tail: seq<Effect>, oldName: string, newName: string)
    requires x.task.category == oldName
    requires tail == NameUpdates(InCategory(rest, oldName), newName)
    ensures [UpdateColumnName(x.task.id, newName)] + tail == NameUpdates(InCategory([x] + rest, oldName), newName)
  {
    InCategoryCons(x, rest, oldName);
    NameUpdatesConcat([x], InCategory(rest, oldName), newName);
  }

  /** One step of the rename loop at a card of column `oldName`. */
  lemma RelabelHit(cards: seq<Card>, i: nat, oldName: string, newName: string)
    requires i < |cards| && cards[i].task.category == oldName
    requires var next := SetTask(cards, cards[i].ref, cards[i].task.(category := newName));
             RelabelFrom(next, i + 1, oldName, newName).updates
             == NameUpdates(InCategory(cards[i + 1..], oldName), newName)
    ensures RelabelFrom(cards, i, oldName, newName).updates == NameUpdates(InCategory(cards[i..], oldName), newName)
  {
    var x := cards[i];
    var next := SetTask(cards, x.ref, x.task.(category := newName));
    var tail := RelabelFrom(next, i + 1, oldName, newName).updates;
    assert RelabelFrom(cards, i, oldName, newName).updates == [UpdateColumnName(x.task.id, newName)] + tail;
    assert cards[i..] == [x] + cards[i + 1..];
    HitUpdates(x, cards[i + 1..], tail, oldName, newName);
  }

  /** One step of the rename loop at a card of another column. */
  lemma RelabelMiss(cards: seq<Card>, i: nat, oldName: string, newName: string)
    requires i < |cards| && cards[i].task.category != oldName
    requires RelabelFrom(cards, i + 1, oldName, newName).updates
             == NameUpdates(InCategory(cards[i + 1..], oldName), newName)
    ensures RelabelFrom(cards, i, oldName, newName).updates == NameUpdates(InCategory(cards[i..], oldName), newName)
  {
    assert cards[i..] == [cards[i]] + cards[i + 1..];
    InCategoryCons(cards[i], cards[i + 1..], oldName);
  }

  lemma {:induction false} RelabelFromUpdates(cards: seq<Card>, i: nat, oldName: string, newName: string)
    requires i <= |cards| && DistinctRefs(cards)
    ensures RelabelFrom(cards, i, oldName, newName).updates == NameUpdates(InCategory(cards[i..], oldName), newName)
    decreases |cards| - i
  {
    if i == |cards| {
      assert cards[i..] == [];
      assert InCategory([], oldName) == [];
    } else if cards[i].task.category == oldName {
      var next := SetTask(cards, cards[i].ref, cards[i].task.(category := newName));
      RelabelStep(cards, i, newName);
      RelabelFromUpdates(next, i + 1, oldName, newName);
      RelabelHit(cards, i, oldName, newName);
    } else {
      RelabelFromUpdates(cards, i + 1, oldName, newName);
      RelabelMiss(cards, i, oldName, newName);
    }
  }

  /**
   * On a board whose objects are distinct, the rename loop relabels exactly
   * the cards of column `oldName`, changes nothing else, and sends one
   * category update per relabelled card, in list order.
   */
  lemma RelabelRenamesColumn(cards: seq<Card>, oldName: string, newName: string)
    requires DistinctRefs(cards)
    ensures Relabel(cards, oldName, newName).cards == RelabelAll(cards, oldName, newName)
    ensures Relabel(cards, oldName, newName).updates == NameUpdates(InCategory(cards, oldName), newName)
  {
    RelabelFromCards(cards, 0, oldName, newName);
    RelabelFromUpdates(cards, 0, oldName, newName);
    assert cards[0..] == cards;
  }

  lemma InCategorySnoc(s: seq<Card>, x: Card, name: string)
    ensures InCategory(s + [x], name) == InCategory(s, name) + if x.task.category == name then [x] else []
  {
    FilterConcat(s, [x], (c: Card) => c.task.category == name);
    FilterSingleton(x, (c: Card) => c.task.category == name);
  }

  lemma RelabelAllSnoc(cards: seq<Card>, oldName: string, newName: string)
    requires |cards| > 0
    ensures RelabelAll(cards, oldName, newName)
            == RelabelAll(cards[..|cards| - 1], oldName, newName) + [Relabelled(cards[|cards| - 1], oldName, newName)]
    ensures cards == cards[..|cards| - 1] + [cards[|cards| - 1]]
  {
  }

  /** A rename leaves every column other than the two names untouched. */
  lemma {:induction false} RelabelOtherColumns(cards: seq<Card>, oldName: string, newName: string, other: string)
    requires other != oldName && other != newName
    ensures InCategory(RelabelAll(cards, oldName, newName), other) == InCategory(cards, other)
  {
    if |cards| > 0 {
      var s' := cards[..|cards| - 1];
      var x := cards[|cards| - 1];
      RelabelOtherColumns(s', oldName, newName, other);
      RelabelAllSnoc(cards, oldName, newName);
      InCategorySnoc(RelabelAll(s', oldName, newName), Relabelled(x, oldName, newName), other);
      InCategorySnoc(s', x, other);
    }
  }

  /** After a rename to a different name, no card is left in the old column. */
  lemma {:induction false} RelabelEmptiesOldColumn(cards: seq<Card>, oldName: string, newName: string)
    requires oldName != newName
    ensures InCategory(RelabelAll(cards, oldName, newName), oldName) == []
  {
    if |cards| > 0 {
      var s' := cards[..|cards| - 1];
      var x := cards[|cards| - 1];
      RelabelEmptiesOldColumn(s', oldName, newName);
      RelabelAllSnoc(cards, oldName, newName);
      InCategorySnoc(RelabelAll(s', oldName, newName), Relabelled(x, oldName, newName), oldName);
    }
  }

  /** When no card had the new name yet, the new column is the old one relabelled. */
  lemma {:induction false} RelabelMovesColumn(cards: seq<Card>, oldName: string, newName: string)
    requires CountIn(cards, newName) == 0
    ensures InCategory(RelabelAll(cards, oldName, newName), newName)
            == RelabelAll(InCategory(cards, oldName), oldName, newName)
  {
    if |cards| > 0 {
      var s' := cards[..|cards| - 1];
      var x := cards[|cards| - 1];
      var y := Relabelled(x, oldName, newName);
      RelabelAllSnoc(cards, oldName, newName);
      InCategorySnoc(s', x, newName);
      InCategorySnoc(s', x, oldName);
      assert CountIn(s', newName) == 0;
      RelabelMovesColumn(s', oldName, newName);
      InCategorySnoc(RelabelAll(s', oldName, newName), y, newName);
      if x.task.category == oldName {
        assert RelabelAll(InCategory(s', oldName) + [x], oldName, newName)
               == RelabelAll(InCategory(s', oldName), oldName, newName) + [y];
      }
    }
  }

  /** The column a rename produces keeps the old column's indices, so contiguity carries over. */
  lemma RenameKeepsContiguous(cards: seq<Card>, oldName: string, newName: string)
    requires Contiguous(cards, oldName) && CountIn(cards, newName) == 0
    ensures Contiguous(RelabelAll(cards, oldName, newName), newName)
  {
    RelabelMovesColumn(cards, oldName, newName);
    var column := InCategory(cards, oldName);
    assert Keys(RelabelAll(column, oldName, newName)) == Keys(column);
  }
}
