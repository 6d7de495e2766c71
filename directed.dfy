/** The live revision (cogs/relationships.py): relationships are directed,
    keyed by `str((from, to))`, and read back with `ast.literal_eval`. */
module DirectedRevision {
  import opened Text
  import opened Keys
  import opened Store
  import opened Pairs
  import opened Views
  import opened Rolls

  /** Cell (row, col) of `show_relationship_table`: the record from `row` to `col`. */
  function DirectedCell(rels: map<string, Record>, row: string, col: string): (c: Cell)
    ensures row == col ==> c == SelfMark
    ensures row != col ==> (c == Unknown <==> Encode(row, col) !in rels)
    ensures row != col && Encode(row, col) in rels ==> c == Score(rels[Encode(row, col)].value)
  {
    CellAt(rels, Encode(row, col), row, col)
  }

  /** Cells (r, c) and (c, r) read different keys: writing the record from
      `c` to `r` leaves cell (r, c) as it was. */
  lemma {:induction false} DirectedCellIndependent(rels: map<string, Record>, r: string, c: string, x: Record)
    requires r != c
    ensures DirectedCell(rels[Encode(c, r) := x], r, c) == DirectedCell(rels, r, c)
  {
    EncodeEqual(r, c, c, r);
  }

  /** The matrix need not be symmetric: one stored direction shows a value
      in its cell and "?" in the mirrored one. */
  lemma {:induction false} DirectedCellAsymmetric(a: string, b: string, x: Record)
    requires a != b
    ensures DirectedCell(map[Encode(a, b) := x], a, b) == Score(x.value)
    ensures DirectedCell(map[Encode(a, b) := x], b, a) == Unknown
  {
    EncodeEqual(b, a, a, b);
  }

  /** The adjustment of `reroll_relationship`: a draw above the old value
      raises it by one (at most 10), a draw of 1 lowers it by one (at least 1).
      The handler ends there: for any other draw it binds no new value, which
      is None here. */
  function Adjust(oldValue: int, draw: int): (r: Option<int>)
    ensures r.Some? <==> draw > oldValue || draw == 1
    ensures r.Some? && draw > oldValue ==> (oldValue < 10 ==> r.value == oldValue + 1) && (oldValue >= 10 ==> r.value == 10)
    ensures r.Some? && draw <= oldValue ==> (oldValue > 1 ==> r.value == oldValue - 1) && (oldValue <= 1 ==> r.value == 1)
  {
    if draw > oldValue then Some(if oldValue + 1 < 10 then oldValue + 1 else 10)
    else if draw == 1 then Some(if oldValue - 1 > 1 then oldValue - 1 else 1)
    else None
  }

  /** An adjusted value stays in 1..10 and moves by exactly one step in the
      direction of the draw, except that a 1 leaves a value of 1 as it is. */
  lemma {:induction false} AdjustBounds(oldValue: int, draw: int)
    requires IsDraw(oldValue) && IsDraw(draw)
    ensures Adjust(oldValue, draw).Some? <==> draw > oldValue || draw == 1
    ensures Adjust(oldValue, draw).Some? ==> IsDraw(Adjust(oldValue, draw).value)
    ensures Adjust(oldValue, draw).Some? ==> -1 <= Adjust(oldValue, draw).value - oldValue <= 1
    ensures draw > oldValue ==> Adjust(oldValue, draw) == Some(oldValue + 1)
    ensures draw == 1 && draw <= oldValue ==> Adjust(oldValue, draw) == Some(if oldValue > 1 then oldValue - 1 else 1)
  {
  }

  // --------------------------------------------------- the detail view sort

  /** The key `show_detailed_relationships` gives `sorted`: the value for an
      entry with a record, the tuple `(0, name)` for an entry without. */
  datatype SortKey = IntKey(n: int) | TupleKey(zero: int, name: string)

  function SourceSortKey(o: Outgoing): SortKey {
    if o.record.Some? then IntKey(o.record.value.value) else TupleKey(0, o.other)
  }

  /** Python 3 orders two ints or two tuples, but raises TypeError on an int
      against a tuple. */
  predicate Comparable(k1: SortKey, k2: SortKey) {
    k1.IntKey? == k2.IntKey?
  }

  lemma {:induction false} AdjacentMixed(s: seq<Outgoing>, p: int, q: int)
    requires 0 <= p < |s| && 0 <= q < |s|
    requires s[p].record.Some? && s[q].record.None?
    ensures exists i :: 0 <= i < |s| - 1 && !Comparable(SourceSortKey(s[i]), SourceSortKey(s[i + 1]))
    decreases if p < q then q - p else p - q
  {
    if p < q {
      if p + 1 == q {
        assert !Comparable(SourceSortKey(s[p]), SourceSortKey(s[p + 1]));
      } else if s[p + 1].record.Some? {
        AdjacentMixed(s, p + 1, q);
      } else {
        AdjacentMixed(s, p, p + 1);
      }
    } else {
      if q + 1 == p {
        assert !Comparable(SourceSortKey(s[q]), SourceSortKey(s[q + 1]));
      } else if s[q + 1].record.Some? {
        AdjacentMixed(s, q + 1, q);
      } else {
        AdjacentMixed(s, p, q + 1);
      }
    }
  }

  /** As written, the sort cannot finish once the list mixes characters with
      and without a record: whatever order it settles on has two neighbours
      with an int and a tuple key, which a comparison sort must have
      compared, and that comparison raises. */
  lemma {:induction false} MixedOutgoingRaises(entries: seq<Outgoing>, arranged: seq<Outgoing>, with: Outgoing, without: Outgoing)
    requires with in entries && with.record.Some?
    requires without in entries && without.record.None?
    requires multiset(arranged) == multiset(entries)
    ensures exists i :: 0 <= i < |arranged| - 1 && !Comparable(SourceSortKey(arranged[i]), SourceSortKey(arranged[i + 1]))
  {
    assert with in multiset(arranged) && without in multiset(arranged);
    var p :| 0 <= p < |arranged| && arranged[p] == with;
    var q :| 0 <= q < |arranged| && arranged[q] == without;
    AdjacentMixed(arranged, p, q);
  }

  /** The intended order: descending by value, characters without a record
      last, as `x[1]["value"] if x[1] else 0` would sort them. */
  function SortOutgoing(entries: seq<Outgoing>): (r: seq<Outgoing>)
    ensures multiset(r) == multiset(entries)
  {
    SortDescProps(entries, OutgoingScore);
    SortDesc(entries, OutgoingScore)
  }

  /** The corrected order lists the same entries, by descending value, and
      every character with a record before every character without one. */
  lemma {:induction false} SortOutgoingProps(entries: seq<Outgoing>)
    requires forall o :: o in entries && o.record.Some? ==> o.record.value.value > 0
    ensures multiset(SortOutgoing(entries)) == multiset(entries)
    ensures forall i, j :: 0 <= i < j < |SortOutgoing(entries)| ==>
      OutgoingScore(SortOutgoing(entries)[i]) >= OutgoingScore(SortOutgoing(entries)[j])
    ensures forall i, j :: 0 <= i < j < |SortOutgoing(entries)| && SortOutgoing(entries)[j].record.Some? ==>
      SortOutgoing(entries)[i].record.Some?
  {
    var r := SortOutgoing(entries);
    SortDescProps(entries, OutgoingScore);
    forall i, j | 0 <= i < j < |r| && r[j].record.Some? ensures r[i].record.Some? {
      assert r[j] in multiset(entries);
    }
  }

  /** The live revision's cog: the two dictionaries of its
      `RelationshipSystem` and the handlers that read and update them. */
  class RelationshipCog {
    var characters: map<string, CharacterInfo>
    var relationships: map<string, Record>

    /** The store as `RelationshipSystem()` loads it. */
    constructor (characters: map<string, CharacterInfo>, relationships: map<string, Record>)
      ensures this.characters == characters && this.relationships == relationships
    {
      this.characters := characters;
      this.relationships := relationships;
    }

    ghost predicate Valid()
      reads this
    {
      WellFormed(relationships)
    }

    /** `!добавить name`. */
    method AddCharacter(rawName: string, actor: UserId, date: string) returns (r: Result<string>)
      modifies this
      ensures var name := Trim(rawName);
        if name == [] then r == Err(EmptyName) && characters == old(characters)
        else if name in old(characters) then r == Err(AlreadyExists(name)) && characters == old(characters)
        else r == Ok(name) && characters == old(characters)[name := CharacterInfo(actor, date)]
      ensures relationships == old(relationships)
    {
      var name := Trim(rawName);
      if name == [] {
        return Err(EmptyName);
      }
      if name in characters {
        return Err(AlreadyExists(name));
      }
      characters := characters[name := CharacterInfo(actor, date)];
      r := Ok(name);
    }

    /** `!удалить name`: the character and every relationship whose key reads
        back as a tuple holding the name, in either position. */
    method RemoveCharacter(rawName: string) returns (r: Result<string>)
      modifies this
      ensures var name := Trim(rawName);
        if name == [] then r == Err(EmptyName) && characters == old(characters) && relationships == old(relationships)
        else if name !in old(characters) then r == Err(NotFound(name)) && characters == old(characters) && relationships == old(relationships)
        else r == Ok(name) && characters == old(characters) - {name} && relationships == Cascade(old(relationships), name)
      ensures old(Valid()) ==> Valid()
    {
      var name := Trim(rawName);
      if name == [] {
        return Err(EmptyName);
      }
      if name !in characters {
        return Err(NotFound(name));
      }
      characters := characters - {name};
      var toRemove: seq<string> := [];
      var pending := relationships.Keys;
      while pending != {}
        invariant pending <= relationships.Keys
        invariant characters == old(characters) - {name}
        invariant relationships == old(relationships)
        invariant forall k :: k in toRemove <==> k in relationships && k !in pending && Mentions(k, name)
        decreases pending
      {
        var k :| k in pending;
        if Mentions(k, name) {
          toRemove := toRemove + [k];
        }
        pending := pending - {k};
      }
      for i := 0 to |toRemove|
        invariant characters == old(characters) - {name}
        invariant relationships == map k | k in old(relationships) && k !in toRemove[..i] :: old(relationships)[k]
      {
        assert toRemove[..i + 1] == toRemove[..i] + [toRemove[i]];
        relationships := relationships - {toRemove[i]};
      }
      assert toRemove[..|toRemove|] == toRemove;
      assert relationships == Cascade(old(relationships), name);
      r := Ok(name);
    }

    /** `!персонажи`: the names, sorted. */
    method ListCharacters() returns (r: Result<seq<string>>)
      ensures characters == map[] ==> r == Err(NoCharacters)
      ensures characters != map[] ==> r.Ok? && StrictlySorted(r.value) && forall x :: x in r.value <==> x in characters
    {
      if characters == map[] {
        return Err(NoCharacters);
      }
      var names := SortNames(characters.Keys);
      r := Ok(names);
    }

    /** `!бросок`: one record for every ordered pair of different characters
        that has none yet. `order` is the dictionary order of the characters
        and `draws` the successive results of `random.randint(1, 10)`. */
    method RollRelationships(order: seq<string>, draws: nat -> int, actor: UserId, date: string) returns (r: Result<nat>)
      requires IsListing(order, characters.Keys)
      requires forall n: nat :: IsDraw(draws(n))
      modifies this`relationships
      ensures |characters| < 2 ==> r == Err(NotEnoughCharacters) && relationships == old(relationships)
      ensures |characters| >= 2 ==> r.Ok? && (relationships, r.value) == RollMissing(old(relationships), DirectedKeys(order), draws, actor, date)
      ensures old(Valid()) ==> Valid()
    {
      if |characters| < 2 {
        return Err(NotEnoughCharacters);
      }
      ghost var rels0 := relationships;
      var created: nat := 0;
      for i := 0 to |order|
        invariant (relationships, created) == DirectedRolledRows(rels0, order, i, draws, actor, date)
      {
        for j := 0 to |order|
          invariant (relationships, created) == DirectedRolledCols(rels0, order, i, j, draws, actor, date)
        {
          assert DirectedRolledCols(rels0, order, i, j + 1, draws, actor, date) ==
            var prev := DirectedRolledCols(rels0, order, i, j, draws, actor, date);
            if order[i] == order[j] then prev else Visit(prev, Encode(order[i], order[j]), draws, actor, date);
          if order[i] != order[j] {
            var key := Encode(order[i], order[j]);
            if key !in relationships {
              relationships := relationships[key := NewRecord(draws(created), actor, date)];
              created := created + 1;
            }
          }
        }
      }
      r := Ok(created);
      DirectedRolledRowsKeys(rels0, order, |order|, draws, actor, date);
      if old(Valid()) {
        RollMissingWellFormed(old(relationships), DirectedKeys(order), draws, actor, date);
      }
    }

    /** `!таблица`: the sorted names and, for each row and column, the
        directed cell. */
    method ShowRelationshipTable() returns (r: Result<Table>)
      ensures relationships == map[] ==> r == Err(NoRelationships)
      ensures relationships != map[] ==> (
        && r.Ok?
        && StrictlySorted(r.value.names) && (forall x :: x in r.value.names <==> x in characters)
        && |r.value.rows| == |r.value.names|
        && (forall i :: 0 <= i < |r.value.rows| ==> |r.value.rows[i]| == |r.value.names|)
        && (forall i, j :: 0 <= i < |r.value.names| && 0 <= j < |r.value.names| ==>
              r.value.rows[i][j] == DirectedCell(relationships, r.value.names[i], r.value.names[j])))
    {
      if relationships == map[] {
        return Err(NoRelationships);
      }
      var names := SortNames(characters.Keys);
      var rels := relationships;
      var rows := Matrix(names, (row, col) => DirectedCell(rels, row, col));
      r := Ok(Table(names, rows));
    }

    /** `!отношения [name]`. With a name: every other character, in
        dictionary order, with the record from the named one to it, sorted by
        the intended order. Without one: every relationship whose key parses,
        in dictionary order of the keys, sorted by descending value. */
    method ShowDetailedRelationships(characterName: Option<string>, order: seq<string>, keyOrder: seq<string>) returns (r: Result<Detail>)
      requires IsListing(order, characters.Keys)
      requires IsListing(keyOrder, relationships.Keys)
      ensures relationships == map[] ==> r == Err(NoRelationships)
      ensures relationships != map[] && characterName.Some? && characterName.value != [] ==>
        var name := Trim(characterName.value);
        if name !in characters then r == Err(NotFound(name))
        else if forall o :: o in OutgoingFor(relationships, name, order) ==> o.record.None? then r == Ok(NoRelationsFor(name))
        else r == Ok(OutgoingView(name, SortOutgoing(OutgoingFor(relationships, name, order))))
      ensures relationships != map[] && (characterName.None? || characterName.value == []) ==>
        r == Ok(EdgeView(SortDesc(EdgesIn(relationships, keyOrder), EdgeValue)))
    {
      if relationships == map[] {
        return Err(NoRelationships);
      }
      if characterName.Some? && characterName.value != [] {
        var name := Trim(characterName.value);
        if name !in characters {
          return Err(NotFound(name));
        }
        var others := Without(order, name);
        var list: seq<Outgoing> := [];
        for i := 0 to |others|
          invariant list == OutgoingList(relationships, name, others[..i])
        {
          assert others[..i + 1][..i] == others[..i];
          list := list + [OutgoingTo(relationships, name, others[i])];
        }
        assert others[..|others|] == others;
        if !exists o :: o in list && o.record.Some? {
          return Ok(NoRelationsFor(name));
        }
        r := Ok(OutgoingView(name, SortOutgoing(list)));
      } else {
        var edges: seq<Edge> := [];
        for i := 0 to |keyOrder|
          invariant edges == EdgesIn(relationships, keyOrder[..i])
        {
          var k := keyOrder[i];
          assert keyOrder[..i + 1][..i] == keyOrder[..i];
          assert k in relationships;
          match Parse(k) {
            case Some(v) =>
              if |v| == 2 {
                edges := edges + [Edge(v[0], v[1], relationships[k])];
              }
            case None =>
          }
        }
        assert keyOrder[..|keyOrder|] == keyOrder;
        r := Ok(EdgeView(SortDesc(edges, EdgeValue)));
      }
    }

    /** `!перебросить from to`: the guards and the adjusted value. The
        handler ends before writing anything back, so the store is never
        changed. */
    method RerollRelationship(rawFrom: string, rawTo: string, draw: int) returns (r: Result<Option<int>>)
      requires IsDraw(draw)
      ensures var a, b := Trim(rawFrom), Trim(rawTo);
        if a == [] || b == [] then r == Err(EmptyName)
        else if a == b then r == Err(SelfRelation)
        else if Encode(a, b) !in relationships then r == Err(RelationshipNotFound(a, b))
        else r == Ok(Adjust(relationships[Encode(a, b)].value, draw))
    {
      var a := Trim(rawFrom);
      var b := Trim(rawTo);
      if a == [] || b == [] {
        return Err(EmptyName);
      }
      if a == b {
        return Err(SelfRelation);
      }
      var key := Encode(a, b);
      if key !in relationships {
        return Err(RelationshipNotFound(a, b));
      }
      r := Ok(Adjust(relationships[key].value, draw));
    }
  }
}
