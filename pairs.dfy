/** The keys the roll handlers visit. `order` is `list(characters.keys())`,
    the dictionary's own order. The live revision visits every ordered pair
    of different names, row by row; the two undirected revisions visit every
    pair of positions i < j and key it by the sorted pair. */
module Pairs {
  import opened Text
  import opened Keys

  type Pair = (string, string)

  /** The pairs row `i` of the directed loops visits in its first `j` columns. */
  function DirectedRow(order: seq<string>, i: nat, j: nat): seq<Pair>
    requires i < |order| && j <= |order|
  {
    if j == 0 then []
    else DirectedRow(order, i, j - 1) + (if order[j - 1] != order[i] then [(order[i], order[j - 1])] else [])
  }

  /** The pairs the directed loops visit in their first `i` rows. */
  function DirectedPairs(order: seq<string>, i: nat): seq<Pair>
    requires i <= |order|
  {
    if i == 0 then [] else DirectedPairs(order, i - 1) + DirectedRow(order, i - 1, |order|)
  }

  /** The positions (i, c) row `i` of the undirected loops visits in its
      first `j` columns: the inner loop starts just after `i`. */
  function UndirectedRow(n: nat, i: nat, j: nat): seq<(nat, nat)> {
    if j == 0 then [] else UndirectedRow(n, i, j - 1) + (if i < j - 1 then [(i, j - 1)] else [])
  }

  /** The positions the undirected loops visit in their first `i` rows. */
  function UndirectedPositions(n: nat, i: nat): seq<(nat, nat)> {
    if i == 0 then [] else UndirectedPositions(n, i - 1) + UndirectedRow(n, i - 1, n)
  }

  /** Positions that lie inside a listing of `n` names. */
  ghost predicate InRange(ps: seq<(nat, nat)>, n: nat) {
    forall q :: q in ps ==> q.0 < n && q.1 < n
  }

  /** The keys of a sequence of pairs, `str((a, b))` each. */
  function KeysOf(ps: seq<Pair>): (ks: seq<string>)
    ensures |ks| == |ps|
  {
    if ps == [] then [] else KeysOf(ps[..|ps| - 1]) + [Encode(ps[|ps| - 1].0, ps[|ps| - 1].1)]
  }

  /** The keys the directed loops visit in their first `i` rows. */
  function DirectedRowsKeys(order: seq<string>, i: nat): seq<string>
    requires i <= |order|
    decreases i, 0
  {
    if i == 0 then [] else DirectedColsKeys(order, i - 1, |order|)
  }

  /** ... and in row `i` before column `j`. */
  function DirectedColsKeys(order: seq<string>, i: nat, j: nat): seq<string>
    requires i < |order| && j <= |order|
    decreases i, j + 1
  {
    if j == 0 then DirectedRowsKeys(order, i)
    else DirectedColsKeys(order, i, j - 1) + if order[i] == order[j - 1] then [] else [Encode(order[i], order[j - 1])]
  }

  /** Every key the directed roll visits, in visiting order. */
  function DirectedKeys(order: seq<string>): seq<string> {
    DirectedRowsKeys(order, |order|)
  }

  /** The sorted key of the names at a position (empty outside the listing). */
  function KeyAt(order: seq<string>, q: (nat, nat)): string {
    if q.0 < |order| && q.1 < |order| then SortedKey(order[q.0], order[q.1]) else []
  }

  /** The sorted keys of the names at the given positions. */
  function SortedKeysAt(order: seq<string>, ps: seq<(nat, nat)>): (ks: seq<string>)
    ensures |ks| == |ps|
  {
    if ps == [] then [] else SortedKeysAt(order, ps[..|ps| - 1]) + [KeyAt(order, ps[|ps| - 1])]
  }

  /** The keys the undirected loops have visited before row `i`, column `j`,
      as the sorted keys of the positions visited. */
  function UndirectedVisited(order: seq<string>, i: nat, j: nat): seq<string>
    requires i < |order| && j <= |order|
  {
    SortedKeysAt(order, UndirectedPositions(|order|, i) + UndirectedRow(|order|, i, j))
  }

  /** The keys the undirected loops visit in their first `i` rows. */
  function UndirectedRowsKeys(order: seq<string>, i: nat): seq<string>
    requires i <= |order|
    decreases i, 0
  {
    if i == 0 then [] else UndirectedColsKeys(order, i - 1, |order|)
  }

  /** ... and in row `i` before column `j`: column `c` is skipped unless i < c. */
  function UndirectedColsKeys(order: seq<string>, i: nat, j: nat): seq<string>
    requires i < |order| && j <= |order|
    decreases i, j + 1
  {
    if j == 0 then UndirectedRowsKeys(order, i)
    else UndirectedColsKeys(order, i, j - 1) + if i < j - 1 then [SortedKey(order[i], order[j - 1])] else []
  }

  /** Every key the undirected rolls visit, in visiting order. */
  function UndirectedKeys(order: seq<string>): seq<string> {
    UndirectedRowsKeys(order, |order|)
  }

  // ------------------------------------------------------------------- keys

  lemma {:induction false} KeysOfAppend(ps: seq<Pair>, p: Pair)
    ensures KeysOf(ps + [p]) == KeysOf(ps) + [Encode(p.0, p.1)]
  {
    var qs := ps + [p];
    assert qs != [] && qs[|qs| - 1] == p;
    assert qs[..|qs| - 1] == ps;
  }

  lemma {:induction false} KeysOfConcat(ps: seq<Pair>, qs: seq<Pair>)
    ensures KeysOf(ps + qs) == KeysOf(ps) + KeysOf(qs)
    decreases |qs|
  {
    if qs != [] {
      var init := qs[..|qs| - 1];
      var last := qs[|qs| - 1];
      assert qs == init + [last];
      assert ps + qs == (ps + init) + [last];
      KeysOfConcat(ps, init);
      KeysOfAppend(ps + init, last);
      KeysOfAppend(init, last);
    } else {
      assert ps + qs == ps;
    }
  }

  /** A key is visited exactly when its pair is; pairs are read back from keys. */
  lemma {:induction false} KeysOfMembers(ps: seq<Pair>)
    ensures forall p :: p in ps ==> Encode(p.0, p.1) in KeysOf(ps)
    ensures forall k :: k in KeysOf(ps) ==> Parse(k).Some? && |Parse(k).value| == 2 && (Parse(k).value[0], Parse(k).value[1]) in ps
    decreases |ps|
  {
    if ps != [] {
      var init := ps[..|ps| - 1];
      var last := ps[|ps| - 1];
      KeysOfMembers(init);
      assert ps == init + [last];
      ParseEncode(last.0, last.1);
    }
  }

  lemma {:induction false} KeysOfNoDup(ps: seq<Pair>)
    requires NoDup(ps)
    ensures NoDup(KeysOf(ps))
    decreases |ps|
  {
    if ps != [] {
      var init := ps[..|ps| - 1];
      var last := ps[|ps| - 1];
      assert NoDup(init) by {
        forall p, q | 0 <= p < q < |init| ensures init[p] != init[q] {
          assert ps[p] == init[p] && ps[q] == init[q];
        }
      }
      KeysOfNoDup(init);
      var k := Encode(last.0, last.1);
      assert last !in init by {
        forall p | 0 <= p < |init| ensures init[p] != last {
          assert ps[p] == init[p];
        }
      }
      assert k !in KeysOf(init) by {
        KeysOfMembers(init);
        forall k2 | k2 in KeysOf(init) ensures k2 != k {
          var v := Parse(k2).value;
          assert (v[0], v[1]) in init;
          EncodeParse(k2);
          EncodeEqual(v[0], v[1], last.0, last.1);
        }
      }
      NoDupConcat(KeysOf(init), [k]);
      assert KeysOf(ps) == KeysOf(init) + [k];
    }
  }

  /** Two positions of a duplicate-free listing hold the same name only if
      they are the same position. */
  lemma {:induction false} NoDupIndex(order: seq<string>, p: int, q: int)
    requires NoDup(order) && 0 <= p < |order| && 0 <= q < |order|
    ensures order[p] == order[q] <==> p == q
  {
  }

  /** In a duplicate-free listing no name occurs before its own position. */
  lemma {:induction false} NoDupPrefix(order: seq<string>, j: int)
    requires NoDup(order) && 0 <= j < |order|
    ensures order[j] !in order[..j]
  {
    forall c | 0 <= c < j ensures order[..j][c] != order[j] {
      NoDupIndex(order, c, j);
    }
  }

  // ---------------------------------------------------------------- directed

  lemma {:induction false} DirectedRowMembers(order: seq<string>, i: nat, j: nat)
    requires i < |order| && j <= |order|
    ensures forall b :: b in order[..j] && b != order[i] ==> (order[i], b) in DirectedRow(order, i, j)
    ensures forall q :: q in DirectedRow(order, i, j) ==> q.0 == order[i] && q.0 != q.1 && q.1 in order[..j]
  {
    if j > 0 {
      DirectedRowMembers(order, i, j - 1);
      var prev := DirectedRow(order, i, j - 1);
      var tail := if order[j - 1] != order[i] then [(order[i], order[j - 1])] else [];
      assert DirectedRow(order, i, j) == prev + tail;
      assert order[..j] == order[..j - 1] + [order[j - 1]];
    }
  }

  lemma {:induction false} DirectedRowShape(order: seq<string>, i: nat, j: nat)
    requires i < |order| && j <= |order| && NoDup(order)
    ensures NoDup(DirectedRow(order, i, j))
    ensures |DirectedRow(order, i, j)| == if i < j then j - 1 else j
  {
    if j > 0 {
      DirectedRowShape(order, i, j - 1);
      DirectedRowMembers(order, i, j - 1);
      var prev := DirectedRow(order, i, j - 1);
      if order[j - 1] != order[i] {
        NoDupPrefix(order, j - 1);
        NoDupConcat(prev, [(order[i], order[j - 1])]);
        NoDupIndex(order, i, j - 1);
      } else {
        NoDupIndex(order, i, j - 1);
      }
    }
  }

  /** Every ordered pair of different names with the first among the first
      `i` names is visited in the first `i` rows ... */
  ghost predicate DirectedPairsComplete(order: seq<string>, i: nat)
    requires i <= |order|
  {
    forall a, b :: a in order[..i] && b in order && a != b ==> (a, b) in DirectedPairs(order, i)
  }

  /** ... and nothing else is. */
  ghost predicate DirectedPairsSound(order: seq<string>, i: nat)
    requires i <= |order|
  {
    forall q :: q in DirectedPairs(order, i) ==> q.0 != q.1 && q.0 in order[..i] && q.1 in order
  }

  lemma {:induction false} DirectedPairsMembers(order: seq<string>, i: nat)
    requires i <= |order|
    ensures DirectedPairsComplete(order, i)
    ensures DirectedPairsSound(order, i)
  {
    if i > 0 {
      DirectedPairsMembers(order, i - 1);
      DirectedPairsMembersStep(order, i);
    }
  }

  lemma {:induction false} DirectedPairsMembersStep(order: seq<string>, i: nat)
    requires 0 < i <= |order|
    requires DirectedPairsComplete(order, i - 1)
    requires DirectedPairsSound(order, i - 1)
    ensures DirectedPairsComplete(order, i)
    ensures DirectedPairsSound(order, i)
  {
    DirectedRowMembers(order, i - 1, |order|);
    assert order[..|order|] == order;
    assert order[..i] == order[..i - 1] + [order[i - 1]];
    DirectedPairsCompleteStep(order, i);
    DirectedPairsSoundStep(order, i);
  }

  lemma {:induction false} DirectedPairsCompleteStep(order: seq<string>, i: nat)
    requires 0 < i <= |order|
    requires DirectedPairsComplete(order, i - 1)
    requires forall b :: b in order && b != order[i - 1] ==> (order[i - 1], b) in DirectedRow(order, i - 1, |order|)
    requires order[..i] == order[..i - 1] + [order[i - 1]]
    ensures DirectedPairsComplete(order, i)
  {
    assert DirectedPairs(order, i) == DirectedPairs(order, i - 1) + DirectedRow(order, i - 1, |order|);
  }

  lemma {:induction false} DirectedPairsSoundStep(order: seq<string>, i: nat)
    requires 0 < i <= |order|
    requires DirectedPairsSound(order, i - 1)
    requires forall q :: q in DirectedRow(order, i - 1, |order|) ==> q.0 == order[i - 1] && q.0 != q.1 && q.1 in order
    requires order[..i] == order[..i - 1] + [order[i - 1]]
    ensures DirectedPairsSound(order, i)
  {
    assert DirectedPairs(order, i) == DirectedPairs(order, i - 1) + DirectedRow(order, i - 1, |order|);
  }

  lemma {:induction false} DirectedPairsShape(order: seq<string>, i: nat)
    requires i <= |order| && NoDup(order)
    ensures NoDup(DirectedPairs(order, i))
    ensures |DirectedPairs(order, i)| == i * (|order| - 1)
  {
    if i > 0 {
      DirectedPairsShape(order, i - 1);
      DirectedPairsMembers(order, i - 1);
      DirectedRowShape(order, i - 1, |order|);
      DirectedRowMembers(order, i - 1, |order|);
      var prev := DirectedPairs(order, i - 1);
      var row := DirectedRow(order, i - 1, |order|);
      NoDupPrefix(order, i - 1);
      forall q | q in prev ensures q !in row {
      }
      NoDupConcat(prev, row);
      assert |DirectedPairs(order, i)| == (i - 1) * (|order| - 1) + (|order| - 1);
    }
  }

  /** One step of the inner directed loop: column `j - 1` of row `i` adds the
      key `str((order[i], order[j - 1]))` unless the two names are equal. */
  lemma {:induction false} DirectedVisitStep(order: seq<string>, i: nat, j: nat)
    requires i < |order| && 0 < j <= |order|
    ensures order[i] != order[j - 1] ==>
      KeysOf(DirectedPairs(order, i) + DirectedRow(order, i, j)) ==
      KeysOf(DirectedPairs(order, i) + DirectedRow(order, i, j - 1)) + [Encode(order[i], order[j - 1])]
    ensures order[i] == order[j - 1] ==>
      KeysOf(DirectedPairs(order, i) + DirectedRow(order, i, j)) == KeysOf(DirectedPairs(order, i) + DirectedRow(order, i, j - 1))
  {
    var prefix := DirectedPairs(order, i) + DirectedRow(order, i, j - 1);
    if order[i] != order[j - 1] {
      assert DirectedPairs(order, i) + DirectedRow(order, i, j) == prefix + [(order[i], order[j - 1])];
      KeysOfAppend(prefix, (order[i], order[j - 1]));
    } else {
      assert DirectedRow(order, i, j) == DirectedRow(order, i, j - 1);
    }
  }

  /** The ends of a row: an empty row adds nothing, a full one closes it. */
  lemma {:induction false} DirectedRowEnds(order: seq<string>, i: nat)
    requires i < |order|
    ensures DirectedPairs(order, i) + DirectedRow(order, i, 0) == DirectedPairs(order, i)
    ensures DirectedPairs(order, i) + DirectedRow(order, i, |order|) == DirectedPairs(order, i + 1)
  {
    assert DirectedPairs(order, i) + [] == DirectedPairs(order, i);
  }

  /** The keys the directed loops have visited before row `i`, column `j`,
      are the keys of the pairs visited. */
  ghost predicate DirectedColsKeyed(order: seq<string>, i: nat, j: nat)
    requires i < |order| && j <= |order|
  {
    DirectedColsKeys(order, i, j) == KeysOf(DirectedPairs(order, i) + DirectedRow(order, i, j))
  }

  /** The visited keys are the keys of the visited pairs. */
  lemma {:induction false} DirectedRowsKeysPairs(order: seq<string>, i: nat)
    requires i <= |order|
    ensures DirectedRowsKeys(order, i) == KeysOf(DirectedPairs(order, i))
    decreases i, 0
  {
    if i > 0 {
      DirectedColsKeysPairs(order, i - 1, |order|);
      DirectedRowsKeysStep(order, i);
    }
  }

  lemma {:induction false} DirectedRowsKeysStep(order: seq<string>, i: nat)
    requires 0 < i <= |order|
    requires DirectedColsKeyed(order, i - 1, |order|)
    ensures DirectedRowsKeys(order, i) == KeysOf(DirectedPairs(order, i))
  {
    DirectedRowEnds(order, i - 1);
  }

  lemma {:induction false} DirectedColsKeysPairs(order: seq<string>, i: nat, j: nat)
    requires i < |order| && j <= |order|
    ensures DirectedColsKeyed(order, i, j)
    decreases i, j + 1
  {
    if j == 0 {
      DirectedRowsKeysPairs(order, i);
      DirectedColsKeysStart(order, i);
    } else {
      DirectedColsKeysPairs(order, i, j - 1);
      DirectedColsKeysStep(order, i, j);
    }
  }

  lemma {:induction false} DirectedColsKeysStart(order: seq<string>, i: nat)
    requires i < |order|
    requires DirectedRowsKeys(order, i) == KeysOf(DirectedPairs(order, i))
    ensures DirectedColsKeyed(order, i, 0)
  {
    DirectedRowEnds(order, i);
  }

  lemma {:induction false} DirectedColsKeysStep(order: seq<string>, i: nat, j: nat)
    requires i < |order| && 0 < j <= |order|
    requires DirectedColsKeyed(order, i, j - 1)
    ensures DirectedColsKeyed(order, i, j)
  {
    DirectedVisitStep(order, i, j);
    if order[i] == order[j - 1] {
      assert DirectedColsKeys(order, i, j - 1) + [] == DirectedColsKeys(order, i, j - 1);
    }
  }

  /** The directed roll visits the key of every ordered pair of different
      characters, and only such keys: never an (a, a) key. */
  lemma {:induction false} DirectedCoverage(order: seq<string>)
    ensures forall a, b :: a in order && b in order && a != b ==> Encode(a, b) in DirectedKeys(order)
    ensures forall k :: k in DirectedKeys(order) ==>
      Parse(k).Some? && var v := Parse(k).value; |v| == 2 && v[0] in order && v[1] in order && v[0] != v[1]
  {
    var ps := DirectedPairs(order, |order|);
    DirectedRowsKeysPairs(order, |order|);
    DirectedPairsMembers(order, |order|);
    KeysOfMembers(ps);
    assert order[..|order|] == order;
    forall a, b | a in order && b in order && a != b ensures Encode(a, b) in DirectedKeys(order) {
      assert (a, b) in ps;
    }
    forall k | k in DirectedKeys(order)
      ensures Parse(k).Some? && var v := Parse(k).value; |v| == 2 && v[0] in order && v[1] in order && v[0] != v[1]
    {
      var v := Parse(k).value;
      assert (v[0], v[1]) in ps;
    }
  }

  /** With distinct names it visits n·(n−1) keys, each once. */
  lemma {:induction false} DirectedCount(order: seq<string>)
    requires NoDup(order)
    ensures NoDup(DirectedKeys(order))
    ensures |DirectedKeys(order)| == |order| * (|order| - 1)
  {
    DirectedRowsKeysPairs(order, |order|);
    DirectedPairsShape(order, |order|);
    KeysOfNoDup(DirectedPairs(order, |order|));
  }

  // -------------------------------------------------------------- undirected

  lemma {:induction false} UndirectedRowMembers(n: nat, i: nat, j: nat)
    ensures forall q :: q in UndirectedRow(n, i, j) <==> q.0 == i && i < q.1 < j
  {
    if j > 0 {
      UndirectedRowMembers(n, i, j - 1);
      var prev := UndirectedRow(n, i, j - 1);
      var last: seq<(nat, nat)> := if i < j - 1 then [(i, j - 1)] else [];
      assert UndirectedRow(n, i, j) == prev + last;
      forall q: (nat, nat) ensures q in prev + last <==> q.0 == i && i < q.1 < j {
        assert q in prev + last <==> q in prev || q in last;
      }
    }
  }

  /** The positions visited in the first `i` rows are exactly the pairs
      c < d with c < i. */
  ghost predicate PositionsExactly(n: nat, i: nat, ps: seq<(nat, nat)>) {
    forall q: (nat, nat) :: q in ps <==> q.0 < i && q.0 < q.1 < n
  }

  lemma {:induction false} UndirectedPositionsMembers(n: nat, i: nat)
    ensures PositionsExactly(n, i, UndirectedPositions(n, i))
  {
    if i > 0 {
      UndirectedPositionsMembers(n, i - 1);
      UndirectedRowMembers(n, i - 1, n);
      UndirectedPositionsMembersStep(n, i, UndirectedPositions(n, i - 1), UndirectedRow(n, i - 1, n));
    }
  }

  lemma {:induction false} UndirectedPositionsMembersStep(n: nat, i: nat, prev: seq<(nat, nat)>, row: seq<(nat, nat)>)
    requires i > 0
    requires PositionsExactly(n, i - 1, prev)
    requires forall q: (nat, nat) :: q in row <==> q.0 == i - 1 && i - 1 < q.1 < n
    ensures PositionsExactly(n, i, prev + row)
  {
    forall q: (nat, nat) ensures q in prev + row <==> q.0 < i && q.0 < q.1 < n {
      assert q in prev + row <==> q in prev || q in row;
    }
  }

  lemma {:induction false} UndirectedRowShape(n: nat, i: nat, j: nat)
    ensures NoDup(UndirectedRow(n, i, j))
    ensures |UndirectedRow(n, i, j)| == if i < j then j - 1 - i else 0
  {
    if j > 0 {
      UndirectedRowShape(n, i, j - 1);
      UndirectedRowMembers(n, i, j - 1);
      if i < j - 1 {
        NoDupConcat(UndirectedRow(n, i, j - 1), [(i, j - 1)]);
      }
    }
  }

  lemma {:induction false} UndirectedPositionsShape(n: nat, i: nat)
    requires i <= n
    ensures NoDup(UndirectedPositions(n, i))
    ensures 2 * |UndirectedPositions(n, i)| == i * (2 * n - i - 1)
  {
    if i > 0 {
      UndirectedPositionsShape(n, i - 1);
      UndirectedPositionsNoDupStep(n, i);
      UndirectedPositionsLengthStep(n, i);
    }
  }

  lemma {:induction false} UndirectedPositionsNoDupStep(n: nat, i: nat)
    requires 0 < i <= n
    requires NoDup(UndirectedPositions(n, i - 1))
    ensures NoDup(UndirectedPositions(n, i))
  {
    var prev := UndirectedPositions(n, i - 1);
    var row := UndirectedRow(n, i - 1, n);
    UndirectedRowShape(n, i - 1, n);
    UndirectedRowDisjoint(n, i - 1);
    NoDupConcat(prev, row);
  }

  /** Row `r` revisits none of the positions of the rows before it. */
  lemma {:induction false} UndirectedRowDisjoint(n: nat, r: nat)
    ensures forall q :: q in UndirectedPositions(n, r) ==> q !in UndirectedRow(n, r, n)
  {
    UndirectedPositionsMembers(n, r);
    UndirectedRowMembers(n, r, n);
  }

  lemma {:induction false} UndirectedPositionsLengthStep(n: nat, i: nat)
    requires 0 < i <= n
    requires 2 * |UndirectedPositions(n, i - 1)| == (i - 1) * (2 * n - (i - 1) - 1)
    ensures 2 * |UndirectedPositions(n, i)| == i * (2 * n - i - 1)
  {
    var prev := UndirectedPositions(n, i - 1);
    var row := UndirectedRow(n, i - 1, n);
    UndirectedRowShape(n, i - 1, n);
    assert |UndirectedPositions(n, i)| == |prev| + (n - i);
    TriangleStep(n, i, |prev|, |UndirectedPositions(n, i)|);
  }

  /** Row `i - 1` adds n − i positions to the triangle of the rows before it. */
  lemma {:induction false} TriangleStep(n: int, i: int, before: int, after: int)
    requires 2 * before == (i - 1) * (2 * n - (i - 1) - 1)
    requires after == before + (n - i)
    ensures 2 * after == i * (2 * n - i - 1)
  {
  }

  lemma {:induction false} SortedKeysAtAppend(order: seq<string>, ps: seq<(nat, nat)>, q: (nat, nat))
    ensures SortedKeysAt(order, ps + [q]) == SortedKeysAt(order, ps) + [KeyAt(order, q)]
  {
    var qs := ps + [q];
    assert qs != [] && qs[|qs| - 1] == q;
    assert qs[..|qs| - 1] == ps;
  }

  lemma {:induction false} SortedKeysAtMembers(order: seq<string>, ps: seq<(nat, nat)>)
    ensures forall q :: q in ps ==> KeyAt(order, q) in SortedKeysAt(order, ps)
    ensures forall k :: k in SortedKeysAt(order, ps) ==> exists q :: q in ps && k == KeyAt(order, q)
    decreases |ps|
  {
    if ps != [] {
      var init := ps[..|ps| - 1];
      var last := ps[|ps| - 1];
      assert ps == init + [last];
      SortedKeysAtMembers(order, init);
      SortedKeysAtAppend(order, init, last);
    }
  }

  /** Positions of two different names, taken in increasing order, give
      different sorted keys. */
  lemma {:induction false} SortedKeysAtDistinct(order: seq<string>, p: nat, c: nat, p2: nat, c2: nat)
    requires NoDup(order) && p < c < |order| && p2 < c2 < |order| && (p, c) != (p2, c2)
    ensures SortedKey(order[p], order[c]) != SortedKey(order[p2], order[c2])
  {
    SortedKeyInjective(order[p], order[c], order[p2], order[c2]);
    NoDupIndex(order, p, p2);
    NoDupIndex(order, c, c2);
    NoDupIndex(order, p, c2);
    NoDupIndex(order, c, p2);
  }

  lemma {:induction false} SortedKeysAtNoDup(order: seq<string>, ps: seq<(nat, nat)>)
    requires InRange(ps, |order|) && NoDup(order) && NoDup(ps)
    requires forall q :: q in ps ==> q.0 < q.1
    ensures NoDup(SortedKeysAt(order, ps))
    decreases |ps|
  {
    if ps != [] {
      var init := ps[..|ps| - 1];
      var last := ps[|ps| - 1];
      assert ps == init + [last];
      SortedKeysAtAppend(order, init, last);
      var prev := SortedKeysAt(order, init);
      var k := KeyAt(order, last);
      assert NoDup(prev) by {
        assert NoDup(init);
        SortedKeysAtNoDup(order, init);
      }
      assert last !in init by {
        forall p | 0 <= p < |init| ensures init[p] != last {
          assert ps[p] == init[p];
        }
      }
      assert k !in prev by {
        SortedKeysAtMembers(order, init);
        forall k2 | k2 in prev ensures k2 != k {
          var q :| q in init && k2 == KeyAt(order, q);
          SortedKeysAtDistinct(order, q.0, q.1, last.0, last.1);
        }
      }
      NoDupConcat(prev, [k]);
    }
  }

  /** The visited keys are the sorted keys of the visited positions. */
  lemma {:induction false} UndirectedRowsKeysPositions(order: seq<string>, i: nat)
    requires i <= |order|
    ensures UndirectedRowsKeys(order, i) == SortedKeysAt(order, UndirectedPositions(|order|, i))
    decreases i, 0
  {
    if i > 0 {
      var n := |order|;
      UndirectedColsKeysPositions(order, i - 1, n);
      assert UndirectedRowsKeys(order, i) == UndirectedVisited(order, i - 1, n);
      assert UndirectedPositions(n, i) == UndirectedPositions(n, i - 1) + UndirectedRow(n, i - 1, n);
    }
  }

  lemma {:induction false} UndirectedColsKeysPositions(order: seq<string>, i: nat, j: nat)
    requires i < |order| && j <= |order|
    ensures UndirectedColsKeys(order, i, j) == UndirectedVisited(order, i, j)
    decreases i, j + 1
  {
    if j == 0 {
      UndirectedRowsKeysPositions(order, i);
      assert UndirectedPositions(|order|, i) + [] == UndirectedPositions(|order|, i);
    } else {
      UndirectedColsKeysPositions(order, i, j - 1);
      UndirectedColsKeysStep(order, i, j);
    }
  }

  /** One step of the inner undirected loop: column `j - 1` of row `i` adds
      the sorted key of the two names when it lies after the diagonal. */
  lemma {:induction false} UndirectedColsKeysStep(order: seq<string>, i: nat, j: nat)
    requires i < |order| && 0 < j <= |order|
    requires UndirectedColsKeys(order, i, j - 1) == UndirectedVisited(order, i, j - 1)
    ensures UndirectedColsKeys(order, i, j) == UndirectedVisited(order, i, j)
  {
    var n := |order|;
    if i < j - 1 {
      assert UndirectedVisited(order, i, j) == UndirectedVisited(order, i, j - 1) + [SortedKey(order[i], order[j - 1])] by {
        var prefix := UndirectedPositions(n, i) + UndirectedRow(n, i, j - 1);
        assert UndirectedPositions(n, i) + UndirectedRow(n, i, j) == prefix + [(i, j - 1)];
        SortedKeysAtAppend(order, prefix, (i, j - 1));
      }
    } else {
      assert UndirectedVisited(order, i, j) == UndirectedVisited(order, i, j - 1) by {
        assert UndirectedRow(n, i, j) == UndirectedRow(n, i, j - 1);
      }
      assert UndirectedColsKeys(order, i, j - 1) + [] == UndirectedColsKeys(order, i, j - 1);
    }
  }

  /** The undirected roll visits the sorted key of every pair of different
      characters, and every key it visits is the sorted key of such a pair. */
  lemma {:induction false} UndirectedCoverage(order: seq<string>)
    requires NoDup(order)
    ensures forall a, b :: a in order && b in order && a != b ==> SortedKey(a, b) in UndirectedKeys(order)
    ensures forall k :: k in UndirectedKeys(order) ==>
      Parse(k).Some? && var v := Parse(k).value; |v| == 2 && v[0] in order && v[1] in order && Less(v[0], v[1])
  {
    forall a, b | a in order && b in order && a != b ensures SortedKey(a, b) in UndirectedKeys(order) {
      UndirectedCovers(order, a, b);
    }
    forall k | k in UndirectedKeys(order)
      ensures Parse(k).Some? && var v := Parse(k).value; |v| == 2 && v[0] in order && v[1] in order && Less(v[0], v[1])
    {
      UndirectedVisitsPair(order, k);
    }
  }

  lemma {:induction false} UndirectedCovers(order: seq<string>, a: string, b: string)
    requires a in order && b in order && a != b
    ensures SortedKey(a, b) in UndirectedKeys(order)
  {
    var n := |order|;
    var ps := UndirectedPositions(n, n);
    var p :| 0 <= p < n && order[p] == a;
    var c :| 0 <= c < n && order[c] == b;
    var q: (nat, nat) := if p < c then (p, c) else (c, p);
    assert q in ps by {
      UndirectedPositionsMembers(n, n);
    }
    assert KeyAt(order, q) == SortedKey(a, b) by {
      SortedKeySymmetric(a, b);
    }
    assert KeyAt(order, q) in SortedKeysAt(order, ps) by {
      SortedKeysAtMembers(order, ps);
    }
    UndirectedRowsKeysPositions(order, n);
  }

  lemma {:induction false} UndirectedVisitsPair(order: seq<string>, k: string)
    requires NoDup(order)
    requires k in UndirectedKeys(order)
    ensures Parse(k).Some? && var v := Parse(k).value; |v| == 2 && v[0] in order && v[1] in order && Less(v[0], v[1])
  {
    var n := |order|;
    var ps := UndirectedPositions(n, n);
    UndirectedRowsKeysPositions(order, n);
    SortedKeysAtMembers(order, ps);
    var q :| q in ps && k == KeyAt(order, q);
    UndirectedPositionsMembers(n, n);
    NoDupIndex(order, q.0, q.1);
    SortedKeyParse(order[q.0], order[q.1]);
  }

  /** With distinct names it visits n·(n−1)/2 keys, each once. */
  lemma {:induction false} UndirectedCount(order: seq<string>)
    requires NoDup(order)
    ensures NoDup(UndirectedKeys(order))
    ensures 2 * |UndirectedKeys(order)| == |order| * (|order| - 1)
  {
    var n := |order|;
    UndirectedRowsKeysPositions(order, n);
    UndirectedPositionsShape(n, n);
    UndirectedPositionsMembers(n, n);
    SortedKeysAtNoDup(order, UndirectedPositions(n, n));
  }
}
