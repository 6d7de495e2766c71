/** The second revision (cog/Relationships.py): relationships are undirected,
    keyed by `str(tuple(sorted([a, b])))`, and read back with
    `ast.literal_eval`. The file has no reroll command. */
module UndirectedRevision {
  import opened Text
  import opened Keys
  import opened Store
  import opened Pairs
  import opened Views
  import opened Rolls

  /** The cog of this revision: the two dictionaries of its
      `RelationshipSystem` and the handlers that read and update them. */
  class RelationshipCog {
    var characters: map<string, CharacterInfo>
    var relationships: map<string, Record>

    /** The store as `RelationshipSystem()` loads it. */
    constructor (characters: map<string, CharacterInfo>, relationships: map<string, Record>)
      ensures this.characters == characters && this.relationships == relationships
    {
      this.characters := characters;
      this.relationships := relationships;
    }

    ghost predicate Valid()
      reads this
    {
      WellFormed(relationships)
    }

    /** `!добавить name`: the name is stripped, and an empty or known name
        is refused. */
    method AddCharacter(rawName: string, actor: UserId, date: string) returns (r: Result<string>)
      modifies this`characters
      ensures var name := Trim(rawName);
        if name == [] then r == Err(EmptyName) && characters == old(characters)
        else if name in old(characters) then r == Err(AlreadyExists(name)) && characters == old(characters)
        else r == Ok(name) && characters == old(characters)[name := CharacterInfo(actor, date)]
      ensures relationships == old(relationships)
    {
      var name := Trim(rawName);
      if name == [] {
        return Err(EmptyName);
      }
      if name in characters {
        return Err(AlreadyExists(name));
      }
      characters := characters[name := CharacterInfo(actor, date)];
      r := Ok(name);
    }

    /** `!удалить name`: the character and every relationship whose key reads
        back as a tuple holding the name; keys that do not parse are skipped. */
    method RemoveCharacter(rawName: string) returns (r: Result<string>)
      modifies this
      ensures var name := Trim(rawName);
        if name == [] then r == Err(EmptyName) && characters == old(characters) && relationships == old(relationships)
        else if name !in old(characters) then r == Err(NotFound(name)) && characters == old(characters) && relationships == old(relationships)
        else r == Ok(name) && characters == old(characters) - {name} && relationships == Cascade(old(relationships), name)
      ensures old(Valid()) ==> Valid()
    {
      var name := Trim(rawName);
      if name == [] {
        return Err(EmptyName);
      }
      if name !in characters {
        return Err(NotFound(name));
      }
      characters := characters - {name};
      var toRemove: seq<string> := [];
      var pending := relationships.Keys;
      while pending != {}
        invariant pending <= relationships.Keys
        invariant characters == old(characters) - {name}
        invariant relationships == old(relationships)
        invariant forall k :: k in toRemove <==> k in relationships && k !in pending && Mentions(k, name)
        decreases pending
      {
        var k :| k in pending;
        if Mentions(k, name) {
          toRemove := toRemove + [k];
        }
        pending := pending - {k};
      }
      for i := 0 to |toRemove|
        invariant characters == old(characters) - {name}
        invariant relationships == map k | k in old(relationships) && k !in toRemove[..i] :: old(relationships)[k]
      {
        assert toRemove[..i + 1] == toRemove[..i] + [toRemove[i]];
        relationships := relationships - {toRemove[i]};
      }
      assert toRemove[..|toRemove|] == toRemove;
      assert relationships == Cascade(old(relationships), name);
      r := Ok(name);
    }

    /** `!персонажи`: the names, sorted. */
    method ListCharacters() returns (r: Result<seq<string>>)
      ensures characters == map[] ==> r == Err(NoCharacters)
      ensures characters != map[] ==> r.Ok? && StrictlySorted(r.value) && forall x :: x in r.value <==> x in characters
    {
      if characters == map[] {
        return Err(NoCharacters);
      }
      var names := SortNames(characters.Keys);
      r := Ok(names);
    }

    /** `!бросок`: one record for every pair of positions i < j of the
        dictionary order that has none under its sorted key. `order` is the
        dictionary order of the characters and `draws` the successive results
        of `random.randint(1, 10)`. */
    method RollRelationships(order: seq<string>, draws: nat -> int, actor: UserId, date: string) returns (r: Result<nat>)
      requires IsListing(order, characters.Keys)
      requires forall n: nat :: IsDraw(draws(n))
      modifies this`relationships
      ensures |characters| < 2 ==> r == Err(NotEnoughCharacters) && relationships == old(relationships)
      ensures |characters| >= 2 ==> r.Ok? && (relationships, r.value) == RollMissing(old(relationships), UndirectedKeys(order), draws, actor, date)
      ensures old(Valid()) ==> Valid()
    {
      if |characters| < 2 {
        return Err(NotEnoughCharacters);
      }
      ghost var rels0 := relationships;
      var created: nat := 0;
      for i := 0 to |order|
        invariant (relationships, created) == UndirectedRolledRows(rels0, order, i, draws, actor, date)
      {
        for j := 0 to |order|
          invariant (relationships, created) == UndirectedRolledCols(rels0, order, i, j, draws, actor, date)
        {
          assert UndirectedRolledCols(rels0, order, i, j + 1, draws, actor, date) ==
            var prev := UndirectedRolledCols(rels0, order, i, j, draws, actor, date);
            if i < j then Visit(prev, SortedKey(order[i], order[j]), draws, actor, date) else prev;
          if i < j {
            var key := SortedKey(order[i], order[j]);
            if key !in relationships {
              relationships := relationships[key := NewRecord(draws(created), actor, date)];
              created := created + 1;
            }
          }
        }
      }
      r := Ok(created);
      UndirectedRolledRowsKeys(rels0, order, |order|, draws, actor, date);
      if old(Valid()) {
        RollMissingWellFormed(old(relationships), UndirectedKeys(order), draws, actor, date);
      }
    }

    /** `!таблица`: the sorted names and, for each row and column, the
        undirected cell. */
    method ShowRelationshipTable() returns (r: Result<Table>)
      ensures relationships == map[] ==> r == Err(NoRelationships)
      ensures relationships != map[] ==> (
        && r.Ok?
        && StrictlySorted(r.value.names) && (forall x :: x in r.value.names <==> x in characters)
        && |r.value.rows| == |r.value.names|
        && (forall i :: 0 <= i < |r.value.rows| ==> |r.value.rows[i]| == |r.value.names|)
        && (forall i, j :: 0 <= i < |r.value.names| && 0 <= j < |r.value.names| ==>
              r.value.rows[i][j] == UndirectedCell(relationships, r.value.names[i], r.value.names[j])))
    {
      if relationships == map[] {
        return Err(NoRelationships);
      }
      var names := SortNames(characters.Keys);
      var rels := relationships;
      var rows := Matrix(names, (row, col) => UndirectedCell(rels, row, col));
      r := Ok(Table(names, rows));
    }

    /** `!отношения [name]`. With a name: the other name of every key that
        parses to a tuple holding it, with its record, largest value first.
        The file ends inside the branch without a name, before it shows
        anything. `keyOrder` is the dictionary order of the keys. */
    method ShowDetailedRelationships(characterName: Option<string>, keyOrder: seq<string>) returns (r: Result<Detail>)
      requires IsListing(keyOrder, relationships.Keys)
      ensures relationships == map[] ==> r == Err(NoRelationships)
      ensures relationships != map[] && characterName.Some? && characterName.value != [] ==>
        var name := Trim(characterName.value);
        if name !in characters then r == Err(NotFound(name))
        else if PartnersIn(relationships, name, keyOrder) == [] then r == Ok(NoRelationsFor(name))
        else r == Ok(PartnerView(name, PartnerList(relationships, name, keyOrder)))
      ensures relationships != map[] && (characterName.None? || characterName.value == []) ==> r == Ok(NoReply)
    {
      if relationships == map[] {
        return Err(NoRelationships);
      }
      if characterName.Some? && characterName.value != [] {
        var name := Trim(characterName.value);
        if name !in characters {
          return Err(NotFound(name));
        }
        var list: seq<Partner> := [];
        for i := 0 to |keyOrder|
          invariant list == PartnersIn(relationships, name, keyOrder[..i])
        {
          var k := keyOrder[i];
          assert keyOrder[..i + 1][..i] == keyOrder[..i];
          assert k in relationships;
          match Parse(k) {
            case Some(v) =>
              if |v| == 2 && name in v {
                list := list + [Partner(if v[1] == name then v[0] else v[1], relationships[k])];
              }
            case None =>
          }
        }
        assert keyOrder[..|keyOrder|] == keyOrder;
        if list == [] {
          return Ok(NoRelationsFor(name));
        }
        r := Ok(PartnerView(name, SortDesc(list, PartnerValue)));
      } else {
        r := Ok(NoReply);
      }
    }
  }
}
