/** The nested loops of `roll_relationships`, step by step. The live revision
    visits every column of every row and skips equal names; the two
    undirected revisions skip every column up to and including the row. The
    state after each step is a function of the steps before it, and the
    lemmas here show that the loops compute `RollMissing` over the visited
    keys of `Pairs`, and what that means for the store. */
module Rolls {
  import opened Text
  import opened Keys
  import opened Store
  import opened Pairs

  // ---------------------------------------------------------------- directed

  /** The state the directed loops reach before row `i`. */
  function DirectedRolledRows(rels: map<string, Record>, order: seq<string>, i: nat, draws: nat -> int, actor: UserId, date: string): (map<string, Record>, nat)
    requires i <= |order|
    requires forall n: nat :: IsDraw(draws(n))
    decreases i, 0
  {
    if i == 0 then (rels, 0) else DirectedRolledCols(rels, order, i - 1, |order|, draws, actor, date)
  }

  /** The state they reach in row `i` before column `j`: column `j` visits the
      key `str((order[i], order[j]))` unless the two names are equal. */
  function DirectedRolledCols(rels: map<string, Record>, order: seq<string>, i: nat, j: nat, draws: nat -> int, actor: UserId, date: string): (map<string, Record>, nat)
    requires i < |order| && j <= |order|
    requires forall n: nat :: IsDraw(draws(n))
    decreases i, j + 1
  {
    if j == 0 then DirectedRolledRows(rels, order, i, draws, actor, date)
    else
      var prev := DirectedRolledCols(rels, order, i, j - 1, draws, actor, date);
      if order[i] == order[j - 1] then prev else Visit(prev, Encode(order[i], order[j - 1]), draws, actor, date)
  }

  /** The directed loops visit the keys of `DirectedKeys(order)` in that order. */
  lemma {:induction false} DirectedRolledRowsKeys(rels: map<string, Record>, order: seq<string>, i: nat, draws: nat -> int, actor: UserId, date: string)
    requires i <= |order|
    requires forall n: nat :: IsDraw(draws(n))
    ensures DirectedRolledRows(rels, order, i, draws, actor, date) == RollMissing(rels, DirectedRowsKeys(order, i), draws, actor, date)
    decreases i, 0
  {
    if i > 0 {
      DirectedRolledColsKeys(rels, order, i - 1, |order|, draws, actor, date);
    }
  }

  lemma {:induction false} DirectedRolledColsKeys(rels: map<string, Record>, order: seq<string>, i: nat, j: nat, draws: nat -> int, actor: UserId, date: string)
    requires i < |order| && j <= |order|
    requires forall n: nat :: IsDraw(draws(n))
    ensures DirectedRolledCols(rels, order, i, j, draws, actor, date) == RollMissing(rels, DirectedColsKeys(order, i, j), draws, actor, date)
    decreases i, j + 1
  {
    if j == 0 {
      DirectedRolledRowsKeys(rels, order, i, draws, actor, date);
    } else {
      DirectedRolledColsKeys(rels, order, i, j - 1, draws, actor, date);
      if order[i] == order[j - 1] {
        assert DirectedColsKeys(order, i, j - 1) + [] == DirectedColsKeys(order, i, j - 1);
      } else {
        RollMissingStep(rels, DirectedColsKeys(order, i, j - 1), Encode(order[i], order[j - 1]), draws, actor, date);
      }
    }
  }

  /** What the directed roll does to the store: every ordered pair of
      different characters has a record afterwards, every new key is such a
      pair's key holding a fresh roll, old records stay, and the counter is
      the number of new keys. */
  lemma {:induction false} DirectedRollEffect(rels: map<string, Record>, order: seq<string>, draws: nat -> int, actor: UserId, date: string)
    requires forall n: nat :: IsDraw(draws(n))
    ensures var res := RollMissing(rels, DirectedKeys(order), draws, actor, date);
      && (forall a, b :: a in order && b in order && a != b ==> Encode(a, b) in res.0)
      && (forall k :: k in res.0 && k !in rels ==>
            Parse(k).Some? && |Parse(k).value| == 2 && Parse(k).value[0] != Parse(k).value[1]
            && Parse(k).value[0] in order && Parse(k).value[1] in order
            && IsRolled(res.0[k], actor, date))
      && (forall k :: k in rels ==> k in res.0 && res.0[k] == rels[k])
      && res.1 == |res.0.Keys - rels.Keys|
  {
    RollMissingEffect(rels, DirectedKeys(order), draws, actor, date);
    RollMissingCount(rels, DirectedKeys(order), draws, actor, date);
    DirectedCoverage(order);
  }

  /** From an empty store, n distinct characters get n·(n−1) relationships. */
  lemma {:induction false} DirectedRollFromEmpty(order: seq<string>, draws: nat -> int, actor: UserId, date: string)
    requires forall n: nat :: IsDraw(draws(n))
    requires NoDup(order)
    ensures RollMissing(map[], DirectedKeys(order), draws, actor, date).1 == |order| * (|order| - 1)
  {
    DirectedCount(order);
    RollMissingFresh(map[], DirectedKeys(order), draws, actor, date);
  }

  /** A second roll over the same characters, in any order and with any
      draws, creates nothing and changes nothing. */
  lemma {:induction false} DirectedRollIdempotent(rels: map<string, Record>, order: seq<string>, order2: seq<string>,
                               draws: nat -> int, draws2: nat -> int, actor: UserId, actor2: UserId, date: string, date2: string)
    requires forall n: nat :: IsDraw(draws(n))
    requires forall n: nat :: IsDraw(draws2(n))
    requires forall x :: x in order2 <==> x in order
    ensures var first := RollMissing(rels, DirectedKeys(order), draws, actor, date);
      RollMissing(first.0, DirectedKeys(order2), draws2, actor2, date2) == (first.0, 0)
  {
    var first := RollMissing(rels, DirectedKeys(order), draws, actor, date);
    RollMissingEffect(rels, DirectedKeys(order), draws, actor, date);
    DirectedCoverage(order);
    DirectedCoverage(order2);
    forall k | k in DirectedKeys(order2) ensures k in first.0 {
      EncodeParse(k);
    }
    RollMissingSaturated(first.0, DirectedKeys(order2), draws2, actor2, date2);
  }

  // -------------------------------------------------------------- undirected

  /** The state the undirected loops reach before row `i`. */
  function UndirectedRolledRows(rels: map<string, Record>, order: seq<string>, i: nat, draws: nat -> int, actor: UserId, date: string): (map<string, Record>, nat)
    requires i <= |order|
    requires forall n: nat :: IsDraw(draws(n))
    decreases i, 0
  {
    if i == 0 then (rels, 0) else UndirectedRolledCols(rels, order, i - 1, |order|, draws, actor, date)
  }

  /** The state they reach in row `i` before column `j`: column `j` visits the
      sorted key of `order[i]` and `order[j]` when i < j. */
  function UndirectedRolledCols(rels: map<string, Record>, order: seq<string>, i: nat, j: nat, draws: nat -> int, actor: UserId, date: string): (map<string, Record>, nat)
    requires i < |order| && j <= |order|
    requires forall n: nat :: IsDraw(draws(n))
    decreases i, j + 1
  {
    if j == 0 then UndirectedRolledRows(rels, order, i, draws, actor, date)
    else
      var prev := UndirectedRolledCols(rels, order, i, j - 1, draws, actor, date);
      if i < j - 1 then Visit(prev, SortedKey(order[i], order[j - 1]), draws, actor, date) else prev
  }

  /** The undirected loops visit the keys of `UndirectedKeys(order)` in that order. */
  lemma {:induction false} UndirectedRolledRowsKeys(rels: map<string, Record>, order: seq<string>, i: nat, draws: nat -> int, actor: UserId, date: string)
    requires i <= |order|
    requires forall n: nat :: IsDraw(draws(n))
    ensures UndirectedRolledRows(rels, order, i, draws, actor, date) == RollMissing(rels, UndirectedRowsKeys(order, i), draws, actor, date)
    decreases i, 0
  {
    if i > 0 {
      UndirectedRolledColsKeys(rels, order, i - 1, |order|, draws, actor, date);
    }
  }

  lemma {:induction false} UndirectedRolledColsKeys(rels: map<string, Record>, order: seq<string>, i: nat, j: nat, draws: nat -> int, actor: UserId, date: string)
    requires i < |order| && j <= |order|
    requires forall n: nat :: IsDraw(draws(n))
    ensures UndirectedRolledCols(rels, order, i, j, draws, actor, date) == RollMissing(rels, UndirectedColsKeys(order, i, j), draws, actor, date)
    decreases i, j + 1
  {
    if j == 0 {
      UndirectedRolledRowsKeys(rels, order, i, draws, actor, date);
    } else {
      UndirectedRolledColsKeys(rels, order, i, j - 1, draws, actor, date);
      if i < j - 1 {
        RollMissingStep(rels, UndirectedColsKeys(order, i, j - 1), SortedKey(order[i], order[j - 1]), draws, actor, date);
      } else {
        assert UndirectedColsKeys(order, i, j - 1) + [] == UndirectedColsKeys(order, i, j - 1);
      }
    }
  }

  /** What the undirected roll does to the store: every pair of different
      characters has a record under its sorted key afterwards, every new key
      is the sorted key of such a pair, smaller name first, holding a fresh
      roll, old records stay, and the counter is the number of new keys. */
  lemma {:induction false} UndirectedRollEffect(rels: map<string, Record>, order: seq<string>, draws: nat -> int, actor: UserId, date: string)
    requires forall n: nat :: IsDraw(draws(n))
    requires NoDup(order)
    ensures var res := RollMissing(rels, UndirectedKeys(order), draws, actor, date);
      && (forall a, b :: a in order && b in order && a != b ==> SortedKey(a, b) in res.0)
      && (forall k :: k in res.0 && k !in rels ==>
            Parse(k).Some? && |Parse(k).value| == 2 && Less(Parse(k).value[0], Parse(k).value[1])
            && Parse(k).value[0] in order && Parse(k).value[1] in order
            && IsRolled(res.0[k], actor, date))
      && (forall k :: k in rels ==> k in res.0 && res.0[k] == rels[k])
      && res.1 == |res.0.Keys - rels.Keys|
  {
    RollMissingEffect(rels, UndirectedKeys(order), draws, actor, date);
    RollMissingCount(rels, UndirectedKeys(order), draws, actor, date);
    UndirectedCoverage(order);
  }

  /** From an empty store, n distinct characters get n·(n−1)/2 relationships,
      one per unordered pair. */
  lemma {:induction false} UndirectedRollFromEmpty(order: seq<string>, draws: nat -> int, actor: UserId, date: string)
    requires forall n: nat :: IsDraw(draws(n))
    requires NoDup(order)
    ensures 2 * RollMissing(map[], UndirectedKeys(order), draws, actor, date).1 == |order| * (|order| - 1)
  {
    UndirectedCount(order);
    RollMissingFresh(map[], UndirectedKeys(order), draws, actor, date);
  }

  /** A second undirected roll over the same characters, in any order and
      with any draws, creates nothing and changes nothing. */
  lemma {:induction false} UndirectedRollIdempotent(rels: map<string, Record>, order: seq<string>, order2: seq<string>,
                                 draws: nat -> int, draws2: nat -> int, actor: UserId, actor2: UserId, date: string, date2: string)
    requires forall n: nat :: IsDraw(draws(n))
    requires forall n: nat :: IsDraw(draws2(n))
    requires NoDup(order) && NoDup(order2)
    requires forall x :: x in order2 <==> x in order
    ensures var first := RollMissing(rels, UndirectedKeys(order), draws, actor, date);
      RollMissing(first.0, UndirectedKeys(order2), draws2, actor2, date2) == (first.0, 0)
  {
    var first := RollMissing(rels, UndirectedKeys(order), draws, actor, date);
    RollMissingEffect(rels, UndirectedKeys(order), draws, actor, date);
    UndirectedCoverage(order);
    UndirectedCoverage(order2);
    forall k | k in UndirectedKeys(order2) ensures k in first.0 {
      var v := Parse(k).value;
      EncodeParse(k);
      LessTotal(v[0], v[1]);
      assert k == SortedKey(v[0], v[1]);
    }
    RollMissingSaturated(first.0, UndirectedKeys(order2), draws2, actor2, date2);
  }
}
