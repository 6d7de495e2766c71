/** The read-only views the handlers build: the relationship matrix of
    `show_relationship_table` and the lists of `show_detailed_relationships`.
    The text layout (column widths, name truncation, legend) is not modelled;
    a view is the data it shows. */
module Views {
  import opened Text
  import opened Keys
  import opened Store

  /** One cell of the matrix: the self marker "—", a value, or "?". */
  datatype Cell = SelfMark | Score(value: int) | Unknown

  /** The cell of row `row` and column `col` when the pair is stored under `key`. */
  function CellAt(rels: map<string, Record>, key: string, row: string, col: string): Cell {
    if row == col then SelfMark
    else if key in rels then Score(rels[key].value)
    else Unknown
  }

  /** Cell (row, col) of the undirected revisions' matrix: the record under
      the sorted key of the two names. */
  function UndirectedCell(rels: map<string, Record>, row: string, col: string): (c: Cell)
    ensures row == col ==> c == SelfMark
    ensures row != col ==> (c == Unknown <==> SortedKey(row, col) !in rels)
    ensures row != col && SortedKey(row, col) in rels ==> c == Score(rels[SortedKey(row, col)].value)
  {
    CellAt(rels, SortedKey(row, col), row, col)
  }

  /** The undirected matrix is symmetric, with the self marker on its diagonal. */
  lemma {:induction false} UndirectedCellSymmetric(rels: map<string, Record>, a: string, b: string)
    ensures UndirectedCell(rels, a, b) == UndirectedCell(rels, b, a)
    ensures UndirectedCell(rels, a, a) == SelfMark
    ensures a != b ==> (UndirectedCell(rels, a, b) == Unknown <==> SortedKey(a, b) !in rels)
  {
    SortedKeySymmetric(a, b);
  }

  /** Writing the record of the pair {a, b} changes the two cells of that
      pair and no other cell. */
  lemma {:induction false} UndirectedCellWrite(rels: map<string, Record>, a: string, b: string, x: Record, r: string, c: string)
    requires a != b
    ensures UndirectedCell(rels[SortedKey(a, b) := x], r, c) ==
      if (r == a && c == b) || (r == b && c == a) then Score(x.value) else UndirectedCell(rels, r, c)
  {
    SortedKeyInjective(r, c, a, b);
  }

  /** The table a handler shows: its (sorted) names and one row of cells per name. */
  datatype Table = Table(names: seq<string>, rows: seq<seq<Cell>>)

  /** The nested loops over the sorted names that fill the table. */
  method Matrix(names: seq<string>, cell: (string, string) -> Cell) returns (rows: seq<seq<Cell>>)
    ensures |rows| == |names|
    ensures forall i :: 0 <= i < |rows| ==> |rows[i]| == |names|
    ensures forall i, j :: 0 <= i < |names| && 0 <= j < |names| ==> rows[i][j] == cell(names[i], names[j])
  {
    rows := [];
    for i := 0 to |names|
      invariant |rows| == i
      invariant forall p :: 0 <= p < i ==> |rows[p]| == |names|
      invariant forall p, j :: 0 <= p < i && 0 <= j < |names| ==> rows[p][j] == cell(names[p], names[j])
    {
      var row := [];
      for j := 0 to |names|
        invariant |row| == j
        invariant forall q :: 0 <= q < j ==> row[q] == cell(names[i], names[q])
      {
        row := row + [cell(names[i], names[j])];
      }
      rows := rows + [row];
    }
  }

  // ------------------------------------------------------------ detail lists

  /** One entry of the live revision's per-character list: the other character
      and the record from the named one to it, when there is one. */
  datatype Outgoing = Outgoing(other: string, record: Option<Record>)

  /** One entry of the undirected per-character lists. */
  datatype Partner = Partner(other: string, record: Record)

  /** One entry of the all-relationships lists. */
  datatype Edge = Edge(from: string, to: string, record: Record)

  /** What `show_detailed_relationships` shows. */
  datatype Detail =
    | NoRelationsFor(name: string)
    | OutgoingView(name: string, outgoing: seq<Outgoing>)
    | PartnerView(name: string, partners: seq<Partner>)
    | EdgeView(edges: seq<Edge>)
    | NoReply

  /** `[c for c in characters if c != name]`. */
  function Without(order: seq<string>, name: string): (r: seq<string>)
    ensures forall c :: c in r <==> c in order && c != name
  {
    if order == [] then []
    else
      assert forall c :: c in order <==> c == order[0] || c in order[1..];
      if order[0] == name then Without(order[1..], name) else [order[0]] + Without(order[1..], name)
  }

  lemma {:induction false} WithoutNoDup(order: seq<string>, name: string)
    requires NoDup(order)
    ensures NoDup(Without(order, name))
  {
    if order != [] {
      var t := order[1..];
      assert NoDup(t) by {
        forall p, q | 0 <= p < q < |t| ensures t[p] != t[q] {
          assert t[p] == order[p + 1] && t[q] == order[q + 1];
        }
      }
      WithoutNoDup(t, name);
      if order[0] != name {
        forall p | 0 <= p < |t| ensures t[p] != order[0] {
          assert t[p] == order[p + 1];
        }
        NoDupConcat([order[0]], Without(t, name));
      }
    }
  }

  /** The outgoing record from `name` to `other`, looked up under `str((name, other))`. */
  function OutgoingTo(rels: map<string, Record>, name: string, other: string): Outgoing {
    Outgoing(other, if Encode(name, other) in rels then Some(rels[Encode(name, other)]) else None)
  }

  /** The list the live revision's loop over the other characters builds. */
  function OutgoingList(rels: map<string, Record>, name: string, others: seq<string>): (r: seq<Outgoing>)
    ensures |r| == |others|
    ensures forall i :: 0 <= i < |r| ==> r[i] == OutgoingTo(rels, name, others[i])
  {
    if others == [] then [] else OutgoingList(rels, name, others[..|others| - 1]) + [OutgoingTo(rels, name, others[|others| - 1])]
  }

  /** The list `show_detailed_relationships` builds for `name` in the live revision. */
  function OutgoingFor(rels: map<string, Record>, name: string, order: seq<string>): seq<Outgoing> {
    OutgoingList(rels, name, Without(order, name))
  }

  /** Every other character appears once, with its outgoing record or None. */
  lemma {:induction false} OutgoingForComplete(rels: map<string, Record>, name: string, order: seq<string>)
    requires NoDup(order)
    ensures forall c :: c in order && c != name <==> OutgoingTo(rels, name, c) in OutgoingFor(rels, name, order)
    ensures forall o :: o in OutgoingFor(rels, name, order) ==> o == OutgoingTo(rels, name, o.other)
    ensures forall i, j :: 0 <= i < j < |OutgoingFor(rels, name, order)| ==> OutgoingFor(rels, name, order)[i].other != OutgoingFor(rels, name, order)[j].other
  {
    var others := Without(order, name);
    WithoutNoDup(order, name);
    var r := OutgoingFor(rels, name, order);
    forall c ensures c in order && c != name <==> OutgoingTo(rels, name, c) in r {
      if c in order && c != name {
        var i :| 0 <= i < |others| && others[i] == c;
        assert r[i] == OutgoingTo(rels, name, c);
      }
      if OutgoingTo(rels, name, c) in r {
        var i :| 0 <= i < |r| && r[i] == OutgoingTo(rels, name, c);
        assert others[i] == c;
      }
    }
    forall i, j | 0 <= i < j < |r| ensures r[i].other != r[j].other {
      assert r[i].other == others[i] && r[j].other == others[j];
    }
  }

  /** The score the evidently intended sort key gives an entry: its value, or
      0 when there is no record yet. */
  function OutgoingScore(o: Outgoing): int {
    if o.record.Some? then o.record.value.value else 0
  }

  function PartnerValue(p: Partner): int {
    p.record.value
  }

  function EdgeValue(e: Edge): int {
    e.record.value
  }

  /** The edges the all-relationships loop collects from the keys in
      `keys`, skipping the keys that do not parse. */
  function EdgesIn(rels: map<string, Record>, keys: seq<string>): seq<Edge>
    requires forall k :: k in keys ==> k in rels
  {
    if keys == [] then []
    else
      var k := keys[|keys| - 1];
      var prev := EdgesIn(rels, keys[..|keys| - 1]);
      match Parse(k)
      case Some(v) => if |v| == 2 then prev + [Edge(v[0], v[1], rels[k])] else prev
      case None => prev
  }

  /** A listed edge is a stored relationship read back from its key, and
      every stored relationship with a parseable key is listed. */
  lemma {:induction false} EdgesInMembers(rels: map<string, Record>, keys: seq<string>)
    requires forall k :: k in keys ==> k in rels
    ensures forall a, b :: Encode(a, b) in keys ==> Edge(a, b, rels[Encode(a, b)]) in EdgesIn(rels, keys)
    ensures forall e :: e in EdgesIn(rels, keys) ==> Encode(e.from, e.to) in keys && e.record == rels[Encode(e.from, e.to)]
    decreases |keys|
  {
    if keys != [] {
      var init := keys[..|keys| - 1];
      var k := keys[|keys| - 1];
      EdgesInMembers(rels, init);
      assert keys == init + [k];
      forall a, b | Encode(a, b) in keys ensures Edge(a, b, rels[Encode(a, b)]) in EdgesIn(rels, keys) {
        ParseEncode(a, b);
      }
      if Parse(k).Some? {
        EncodeParse(k);
      }
    }
  }

  /** The list the per-character loop of the undirected revisions collects:
      for each parseable key naming `name`, the other name in it with the record. */
  function PartnersIn(rels: map<string, Record>, name: string, keys: seq<string>): seq<Partner>
    requires forall k :: k in keys ==> k in rels
  {
    if keys == [] then []
    else
      var k := keys[|keys| - 1];
      var prev := PartnersIn(rels, name, keys[..|keys| - 1]);
      match Parse(k)
      case Some(v) =>
        if |v| == 2 && name in v then prev + [Partner(if v[1] == name then v[0] else v[1], rels[k])] else prev
      case None => prev
  }

  /** What the per-character branch of the undirected revisions shows: its
      partners, largest value first. */
  function PartnerList(rels: map<string, Record>, name: string, keys: seq<string>): seq<Partner>
    requires forall k :: k in keys ==> k in rels
  {
    SortDesc(PartnersIn(rels, name, keys), PartnerValue)
  }

  /** The shown list is the collected one, reordered by descending value. */
  lemma {:induction false} PartnerListProps(rels: map<string, Record>, name: string, keys: seq<string>)
    requires forall k :: k in keys ==> k in rels
    ensures multiset(PartnerList(rels, name, keys)) == multiset(PartnersIn(rels, name, keys))
    ensures forall i, j :: 0 <= i < j < |PartnerList(rels, name, keys)| ==>
      PartnerList(rels, name, keys)[i].record.value >= PartnerList(rels, name, keys)[j].record.value
    ensures forall a :: Encode(name, a) in keys ==> Partner(a, rels[Encode(name, a)]) in PartnerList(rels, name, keys)
    ensures forall a :: Encode(a, name) in keys ==> Partner(a, rels[Encode(a, name)]) in PartnerList(rels, name, keys)
    ensures forall p :: p in PartnerList(rels, name, keys) ==>
      (Encode(name, p.other) in keys && p.record == rels[Encode(name, p.other)]) ||
      (Encode(p.other, name) in keys && p.record == rels[Encode(p.other, name)])
  {
    var ps := PartnersIn(rels, name, keys);
    SortDescProps(ps, PartnerValue);
    PartnersInMembers(rels, name, keys);
    var r := PartnerList(rels, name, keys);
    forall p ensures p in r <==> p in ps {
      assert p in r <==> p in multiset(r);
      assert p in ps <==> p in multiset(ps);
    }
  }

  /** The partners of `name` are exactly the other names of the keys naming it. */
  lemma {:induction false} PartnersInMembers(rels: map<string, Record>, name: string, keys: seq<string>)
    requires forall k :: k in keys ==> k in rels
    ensures forall a :: Encode(name, a) in keys ==> Partner(a, rels[Encode(name, a)]) in PartnersIn(rels, name, keys)
    ensures forall a :: Encode(a, name) in keys ==> Partner(a, rels[Encode(a, name)]) in PartnersIn(rels, name, keys)
    ensures forall p :: p in PartnersIn(rels, name, keys) ==>
      (Encode(name, p.other) in keys && p.record == rels[Encode(name, p.other)]) ||
      (Encode(p.other, name) in keys && p.record == rels[Encode(p.other, name)])
    decreases |keys|
  {
    if keys != [] {
      var init := keys[..|keys| - 1];
      var k := keys[|keys| - 1];
      PartnersInMembers(rels, name, init);
      assert keys == init + [k];
      forall a | Encode(name, a) in keys ensures Partner(a, rels[Encode(name, a)]) in PartnersIn(rels, name, keys) {
        ParseEncode(name, a);
      }
      forall a | Encode(a, name) in keys ensures Partner(a, rels[Encode(a, name)]) in PartnersIn(rels, name, keys) {
        ParseEncode(a, name);
      }
      if Parse(k).Some? {
        EncodeParse(k);
      }
    }
  }
}
