/** The earliest revision (Cog.py): relationships are undirected, keyed by
    `str(tuple(sorted([a, b])))`; names are taken as typed, removal matches
    the name as a substring of the key text, keys are read back with `eval`,
    and a reroll overwrites the value with the new draw. */
module EarliestRevision {
  import opened Text
  import opened Keys
  import opened Store
  import opened Pairs
  import opened Views
  import opened Rolls

  // ------------------------------------------------------- substring cascade

  /** The relationships left after removing `name`: every key whose text
      contains the name anywhere goes (`if name in rel_key`). */
  function SubstringCascade(rels: map<string, Record>, name: string): (r: map<string, Record>)
    ensures r.Keys <= rels.Keys
  {
    map k | k in rels && !IsSubstring(name, k) :: rels[k]
  }

  /** A string that occurs in a plain name occurs in the text of every key
      of a pair holding the name. */
  lemma {:induction false} SubstringOfKey(needle: string, a: string, b: string)
    requires IsPlain(a) && IsSubstring(needle, a)
    ensures IsSubstring(needle, Encode(a, b)) && IsSubstring(needle, Encode(b, a))
  {
    EscapePlain(a);
    SubstringExtend(needle, a, "'");
    SubstringExtend(needle, "'" + a, "'");
    assert Quote(a) == "'" + a + "'";
    SubstringExtend(needle, Quote(a), "(");
    SubstringExtend(needle, "(" + Quote(a), ", ");
    SubstringExtend(needle, "(" + Quote(a) + ", " , Quote(b));
    SubstringExtend(needle, "(" + Quote(a) + ", " + Quote(b), ")");
    SubstringExtend(needle, Quote(a), "(" + Quote(b) + ", ");
    SubstringExtend(needle, "(" + Quote(b) + ", " + Quote(a), ")");
  }

  /** A plain name occurs in the text of every key of a pair holding it. */
  lemma {:induction false} PlainNameInKey(name: string, other: string)
    requires IsPlain(name)
    ensures IsSubstring(name, Encode(name, other))
    ensures IsSubstring(name, Encode(other, name))
    ensures IsSubstring(name, SortedKey(name, other))
  {
    SubstringSelf(name);
    SubstringOfKey(name, name, other);
  }

  /** No relationship of a plain removed name survives, whichever side of
      the key it is on. */
  lemma {:induction false} SubstringCascadeComplete(rels: map<string, Record>, name: string)
    requires IsPlain(name)
    ensures forall other :: SortedKey(name, other) !in SubstringCascade(rels, name)
    ensures forall other :: Encode(name, other) !in SubstringCascade(rels, name) && Encode(other, name) !in SubstringCascade(rels, name)
  {
    forall other
      ensures SortedKey(name, other) !in SubstringCascade(rels, name)
      ensures Encode(name, other) !in SubstringCascade(rels, name) && Encode(other, name) !in SubstringCascade(rels, name)
    {
      PlainNameInKey(name, other);
    }
  }

  /** Keys whose text does not contain the name keep their records, and
      nothing is added. */
  lemma {:induction false} SubstringCascadeFrame(rels: map<string, Record>, name: string)
    ensures SubstringCascade(rels, name).Keys <= rels.Keys
    ensures forall k :: k in rels && !IsSubstring(name, k) ==> k in SubstringCascade(rels, name) && SubstringCascade(rels, name)[k] == rels[k]
    ensures forall k :: k in rels && IsSubstring(name, k) ==> k !in SubstringCascade(rels, name)
  {
  }

  /** For a plain name the substring test removes at least what the exact
      test of the later revisions removes. */
  lemma {:induction false} SubstringCascadeCoversCascade(rels: map<string, Record>, name: string)
    requires IsPlain(name)
    ensures SubstringCascade(rels, name).Keys <= Cascade(rels, name).Keys
  {
    forall k | k in SubstringCascade(rels, name) ensures !Mentions(k, name) {
      if Mentions(k, name) {
        EncodeParse(k);
        var v := Parse(k).value;
        PlainNameInKey(name, v[1]);
        PlainNameInKey(name, v[0]);
      }
    }
  }

  /** ... and can remove more: removing "An" also removes the relationship
      of "Ann" and "Bob", though neither of them is "An". */
  lemma {:induction false} SubstringCascadeOverreach(x: Record)
    ensures SortedKey("Ann", "Bob") == "('" + "Ann" + "', '" + "Bob" + "')"
    ensures SubstringCascade(map[SortedKey("Ann", "Bob") := x], "An") == map[]
    ensures Cascade(map[SortedKey("Ann", "Bob") := x], "An") == map[SortedKey("Ann", "Bob") := x]
  {
    assert !Less("Bob", "Ann");
    EncodePlain("Ann", "Bob");
    assert "Ann"[0..2] == "An";
    assert OccursAt("An", "Ann", 0);
    SubstringOfKey("An", "Ann", "Bob");
    MentionsEncode("Ann", "Bob", "An");
  }

  // ------------------------------------------------------------ detail lists

  /** The per-character loop as written: `eval` each key in dictionary order,
      raising at the first one that does not read back as a pair. */
  function EvalPartners(rels: map<string, Record>, name: string, keys: seq<string>): (r: Result<seq<Partner>>)
    requires forall k :: k in keys ==> k in rels
    ensures r.Ok? ==> |r.value| <= |keys|
    ensures r.Err? ==> r.error.UnparseableKey? && r.error.key in keys && ParsePair(r.error.key).None?
  {
    if keys == [] then Ok([])
    else
      var k := keys[|keys| - 1];
      match EvalPartners(rels, name, keys[..|keys| - 1])
      case Err(e) => Err(e)
      case Ok(prev) =>
        match ParsePair(k)
        case None => Err(UnparseableKey(k))
        case Some(p) =>
          if p.0 == name || p.1 == name then Ok(prev + [Partner(if p.1 == name then p.0 else p.1, rels[k])]) else Ok(prev)
  }

  /** The loop succeeds exactly when every key reads back, and then collects
      what the later revision's loop collects; otherwise the error names a
      key that does not read back. */
  lemma {:induction false} EvalPartnersSpec(rels: map<string, Record>, name: string, keys: seq<string>)
    requires forall k :: k in keys ==> k in rels
    ensures EvalPartners(rels, name, keys).Ok? <==> forall k :: k in keys ==> ParsePair(k).Some?
    ensures EvalPartners(rels, name, keys).Ok? ==> EvalPartners(rels, name, keys).value == PartnersIn(rels, name, keys)
    ensures EvalPartners(rels, name, keys).Err? ==>
      var e := EvalPartners(rels, name, keys).error; e.UnparseableKey? && e.key in keys && ParsePair(e.key) == None
    decreases |keys|
  {
    if keys != [] {
      var init, k := keys[..|keys| - 1], keys[|keys| - 1];
      assert keys == init + [k];
      assert forall x :: x in keys <==> x in init || x == k;
      EvalPartnersSpec(rels, name, init);
      ParsePairSpec(k);
    }
  }

  /** An error in a prefix of the keys is the error of the whole loop. */
  lemma {:induction false} EvalPartnersPrefixErr(rels: map<string, Record>, name: string, keys: seq<string>, n: nat)
    requires forall k :: k in keys ==> k in rels
    requires n <= |keys|
    requires forall k :: k in keys[..n] ==> k in rels
    requires EvalPartners(rels, name, keys[..n]).Err?
    ensures EvalPartners(rels, name, keys) == EvalPartners(rels, name, keys[..n])
    decreases |keys|
  {
    if n < |keys| {
      var init := keys[..|keys| - 1];
      assert init[..n] == keys[..n];
      EvalPartnersPrefixErr(rels, name, init, n);
    } else {
      assert keys[..n] == keys;
    }
  }

  /** The sort key of the all-relationships view: a key's stored value. */
  function ValueOf(rels: map<string, Record>): string -> int {
    k => if k in rels then rels[k].value else 0
  }

  /** The all-relationships loop as written: `eval` each key of the sorted
      items, raising at the first one that does not read back as a pair. */
  function EvalEdges(rels: map<string, Record>, keys: seq<string>): (r: Result<seq<Edge>>)
    requires forall k :: k in keys ==> k in rels
    ensures r.Ok? ==> |r.value| == |keys|
    ensures r.Err? ==> r.error.UnparseableKey? && r.error.key in keys && ParsePair(r.error.key).None?
  {
    if keys == [] then Ok([])
    else
      var key := keys[|keys| - 1];
      match EvalEdges(rels, keys[..|keys| - 1])
      case Err(e) => Err(e)
      case Ok(prev) =>
        match ParsePair(key)
        case None => Err(UnparseableKey(key))
        case Some(p) => Ok(prev + [Edge(p.0, p.1, rels[key])])
  }

  /** The loop succeeds exactly when every key reads back, and then yields
      one edge per key, in the same order. */
  lemma {:induction false} EvalEdgesSpec(rels: map<string, Record>, keys: seq<string>)
    requires forall k :: k in keys ==> k in rels
    ensures EvalEdges(rels, keys).Ok? <==> forall i :: 0 <= i < |keys| ==> ParsePair(keys[i]).Some?
    ensures EvalEdges(rels, keys).Ok? ==> |EvalEdges(rels, keys).value| == |keys|
    ensures EvalEdges(rels, keys).Ok? ==> forall i :: 0 <= i < |keys| ==>
      EvalEdges(rels, keys).value[i] == Edge(ParsePair(keys[i]).value.0, ParsePair(keys[i]).value.1, rels[keys[i]])
    ensures EvalEdges(rels, keys).Err? ==> var e := EvalEdges(rels, keys).error;
      e.UnparseableKey? && ParsePair(e.key) == None && e.key in keys
  {
    EvalEdgesOutcome(rels, keys);
    EvalEdgesValue(rels, keys);
  }

  lemma {:induction false} EvalEdgesOutcome(rels: map<string, Record>, keys: seq<string>)
    requires forall k :: k in keys ==> k in rels
    ensures EvalEdges(rels, keys).Ok? <==> forall i :: 0 <= i < |keys| ==> ParsePair(keys[i]).Some?
    ensures EvalEdges(rels, keys).Err? ==> var e := EvalEdges(rels, keys).error;
      e.UnparseableKey? && ParsePair(e.key) == None && e.key in keys
    decreases |keys|
  {
    if keys != [] {
      var init := keys[..|keys| - 1];
      EvalEdgesOutcome(rels, init);
      assert forall i :: 0 <= i < |init| ==> init[i] == keys[i];
    }
  }

  lemma {:induction false} EvalEdgesValue(rels: map<string, Record>, keys: seq<string>)
    requires forall k :: k in keys ==> k in rels
    ensures EvalEdges(rels, keys).Ok? ==> |EvalEdges(rels, keys).value| == |keys|
    ensures EvalEdges(rels, keys).Ok? ==> forall i :: 0 <= i < |keys| ==>
      ParsePair(keys[i]).Some? && EvalEdges(rels, keys).value[i] == Edge(ParsePair(keys[i]).value.0, ParsePair(keys[i]).value.1, rels[keys[i]])
    decreases |keys|
  {
    if keys != [] && EvalEdges(rels, keys).Ok? {
      var init := keys[..|keys| - 1];
      var last := keys[|keys| - 1];
      EvalEdgesValue(rels, init);
      var prev := EvalEdges(rels, init).value;
      var p := ParsePair(last).value;
      assert EvalEdges(rels, keys).value == prev + [Edge(p.0, p.1, rels[last])];
      forall i | 0 <= i < |init| ensures init[i] == keys[i] {
      }
    }
  }

  lemma {:induction false} EvalEdgesPrefixErr(rels: map<string, Record>, keys: seq<string>, n: nat)
    requires forall k :: k in keys ==> k in rels
    requires n <= |keys|
    requires EvalEdges(rels, keys[..n]).Err?
    ensures EvalEdges(rels, keys) == EvalEdges(rels, keys[..n])
    decreases |keys|
  {
    if n < |keys| {
      var init := keys[..|keys| - 1];
      assert init[..n] == keys[..n];
      EvalEdgesPrefixErr(rels, init, n);
    } else {
      assert keys[..n] == keys;
    }
  }

  /** One more key of the loop. */
  lemma {:induction false} EvalEdgesSnoc(rels: map<string, Record>, keys: seq<string>, i: nat)
    requires forall k :: k in keys ==> k in rels
    requires i < |keys|
    ensures forall k :: k in keys[..i] ==> k in rels
    ensures EvalEdges(rels, keys[..i]).Ok? && ParsePair(keys[i]).None? ==>
      EvalEdges(rels, keys[..i + 1]) == Err(UnparseableKey(keys[i]))
    ensures EvalEdges(rels, keys[..i]).Ok? && ParsePair(keys[i]).Some? ==>
      EvalEdges(rels, keys[..i + 1]) == Ok(EvalEdges(rels, keys[..i]).value + [Edge(ParsePair(keys[i]).value.0, ParsePair(keys[i]).value.1, rels[keys[i]])])
  {
    assert keys[..i + 1][..i] == keys[..i];
  }

  /** The sorted keys are the stored keys, largest value first. */
  lemma {:induction false} SortedKeys(rels: map<string, Record>, keyOrder: seq<string>)
    ensures var s := SortDesc(keyOrder, ValueOf(rels));
      && Descending(s, ValueOf(rels))
      && (forall k :: k in s <==> k in keyOrder)
  {
    var s := SortDesc(keyOrder, ValueOf(rels));
    SortDescProps(keyOrder, ValueOf(rels));
    forall k ensures k in s <==> k in keyOrder {
      assert k in s <==> k in multiset(s);
      assert k in keyOrder <==> k in multiset(keyOrder);
    }
  }

  /** When every key reads back, the all-relationships view lists every
      stored relationship as the edge of its pair, nothing else, largest
      value first. */
  lemma {:induction false} AllEdgesProps(rels: map<string, Record>, keyOrder: seq<string>)
    requires IsListing(keyOrder, rels.Keys)
    requires forall k :: k in rels ==> ParsePair(k).Some?
    ensures var s := SortDesc(keyOrder, ValueOf(rels));
      && (forall k :: k in s ==> k in rels)
      && EvalEdges(rels, s).Ok?
    ensures var es := EvalEdges(rels, SortDesc(keyOrder, ValueOf(rels))).value;
      && (forall i, j :: 0 <= i < j < |es| ==> es[i].record.value >= es[j].record.value)
      && (forall e :: e in es ==> Encode(e.from, e.to) in rels && rels[Encode(e.from, e.to)] == e.record)
      && (forall a, b :: Encode(a, b) in rels ==> Edge(a, b, rels[Encode(a, b)]) in es)
  {
    var s := SortDesc(keyOrder, ValueOf(rels));
    SortedKeys(rels, keyOrder);
    EvalEdgesSpec(rels, s);
    AllEdgesSorted(rels, s);
    AllEdgesSound(rels, s);
    AllEdgesComplete(rels, s);
  }

  lemma {:induction false} AllEdgesSorted(rels: map<string, Record>, s: seq<string>)
    requires forall k :: k in s ==> k in rels
    requires Descending(s, ValueOf(rels))
    requires EvalEdges(rels, s).Ok?
    ensures var es := EvalEdges(rels, s).value; forall i, j :: 0 <= i < j < |es| ==> es[i].record.value >= es[j].record.value
  {
    EvalEdgesSpec(rels, s);
    var es := EvalEdges(rels, s).value;
    forall i, j | 0 <= i < j < |es| ensures es[i].record.value >= es[j].record.value {
      assert ValueOf(rels)(s[i]) >= ValueOf(rels)(s[j]);
    }
  }

  lemma {:induction false} AllEdgesSound(rels: map<string, Record>, s: seq<string>)
    requires forall k :: k in s ==> k in rels
    requires EvalEdges(rels, s).Ok?
    ensures var es := EvalEdges(rels, s).value; forall e :: e in es ==> Encode(e.from, e.to) in rels && rels[Encode(e.from, e.to)] == e.record
  {
    EvalEdgesSpec(rels, s);
    var es := EvalEdges(rels, s).value;
    forall e | e in es ensures Encode(e.from, e.to) in rels && rels[Encode(e.from, e.to)] == e.record {
      var i :| 0 <= i < |es| && es[i] == e;
      ParsePairSpec(s[i]);
    }
  }

  lemma {:induction false} AllEdgesComplete(rels: map<string, Record>, s: seq<string>)
    requires forall k :: k in s <==> k in rels
    requires EvalEdges(rels, s).Ok?
    ensures var es := EvalEdges(rels, s).value; forall a, b :: Encode(a, b) in rels ==> Edge(a, b, rels[Encode(a, b)]) in es
  {
    EvalEdgesSpec(rels, s);
    var es := EvalEdges(rels, s).value;
    forall a, b | Encode(a, b) in rels ensures Edge(a, b, rels[Encode(a, b)]) in es {
      var k := Encode(a, b);
      var i :| 0 <= i < |s| && s[i] == k;
      ParsePairEncode(a, b);
      assert es[i] == Edge(a, b, rels[k]);
    }
  }

  /** The record a reroll leaves: the raw new draw and its label, the
      rerolling user and date added, the original roll's fields kept. */
  function Rerolled(prior: Record, draw: int, actor: UserId, date: string): (r: Record)
    requires IsDraw(draw)
    ensures IsDraw(r.value) && r.description == Label(r.value)
    ensures r.value == draw && r.rolledBy == prior.rolledBy && r.rollDate == prior.rollDate
    ensures r.reroll == Some(Reroll(actor, date))
  {
    prior.(value := draw, description := Label(draw), reroll := Some(Reroll(actor, date)))
  }

  /** What the per-character view shows once its loop has run: the loop's
      error, the "no relationships" reply, or the partners by descending value. */
  function PartnerDetail(name: string, res: Result<seq<Partner>>): Result<Detail> {
    match res
    case Err(e) => Err(e)
    case Ok(ps) => if ps == [] then Ok(NoRelationsFor(name)) else Ok(PartnerView(name, SortDesc(ps, PartnerValue)))
  }

  /** What the all-relationships view shows once its loop has run: the
      loop's error or its edges. */
  function EdgeDetail(res: Result<seq<Edge>>): Result<Detail> {
    match res
    case Err(e) => Err(e)
    case Ok(es) => Ok(EdgeView(es))
  }

  /** The earliest cog: the two dictionaries and the handlers that read
      and update them. */
  class RelationshipCog {
    var characters: map<string, CharacterInfo>
    var relationships: map<string, Record>

    /** The store as `RelationshipSystem()` loads it. */
    constructor (characters: map<string, CharacterInfo>, relationships: map<string, Record>)
      ensures this.characters == characters && this.relationships == relationships
    {
      this.characters := characters;
      this.relationships := relationships;
    }

    ghost predicate Valid()
      reads this
    {
      WellFormed(relationships)
    }

    /** `!добавить name`: the name as typed; a known name is refused. */
    method AddCharacter(name: string, actor: UserId, date: string) returns (r: Result<string>)
      modifies this`characters
      ensures name in old(characters) ==> r == Err(AlreadyExists(name)) && characters == old(characters)
      ensures name !in old(characters) ==> r == Ok(name) && characters == old(characters)[name := CharacterInfo(actor, date)]
      ensures relationships == old(relationships)
    {
      if name in characters {
        return Err(AlreadyExists(name));
      }
      characters := characters[name := CharacterInfo(actor, date)];
      r := Ok(name);
    }

    /** `!удалить name`: the character and every relationship whose key text
        contains the name, deleted key by key over a snapshot of the keys. */
    method RemoveCharacter(name: string) returns (r: Result<string>)
      modifies this
      ensures name !in old(characters) ==> r == Err(NotFound(name)) && characters == old(characters) && relationships == old(relationships)
      ensures name in old(characters) ==> r == Ok(name) && characters == old(characters) - {name} && relationships == SubstringCascade(old(relationships), name)
      ensures old(Valid()) ==> Valid()
    {
      if name !in characters {
        return Err(NotFound(name));
      }
      characters := characters - {name};
      var pending := relationships.Keys;
      while pending != {}
        invariant pending <= old(relationships).Keys
        invariant characters == old(characters) - {name}
        invariant relationships == map k | k in old(relationships) && (k in pending || !IsSubstring(name, k)) :: old(relationships)[k]
        decreases pending
      {
        var k :| k in pending;
        if IsSubstring(name, k) {
          relationships := relationships - {k};
        }
        pending := pending - {k};
      }
      r := Ok(name);
    }

    /** `!персонажи`: the names, sorted. */
    method ListCharacters() returns (r: Result<seq<string>>)
      ensures characters == map[] ==> r == Err(NoCharacters)
      ensures characters != map[] ==> r.Ok? && StrictlySorted(r.value) && forall x :: x in r.value <==> x in characters
    {
      if characters == map[] {
        return Err(NoCharacters);
      }
      var names := SortNames(characters.Keys);
      r := Ok(names);
    }

    /** `!бросок`: as in the later undirected revision, one record for every
        pair of positions i < j of the dictionary order that has none under
        its sorted key. */
    method RollRelationships(order: seq<string>, draws: nat -> int, actor: UserId, date: string) returns (r: Result<nat>)
      requires IsListing(order, characters.Keys)
      requires forall n: nat :: IsDraw(draws(n))
      modifies this`relationships
      ensures |characters| < 2 ==> r == Err(NotEnoughCharacters) && relationships == old(relationships)
      ensures |characters| >= 2 ==> r.Ok? && (relationships, r.value) == RollMissing(old(relationships), UndirectedKeys(order), draws, actor, date)
      ensures old(Valid()) ==> Valid()
    {
      if |characters| < 2 {
        return Err(NotEnoughCharacters);
      }
      ghost var rels0 := relationships;
      var created: nat := 0;
      for i := 0 to |order|
        invariant (relationships, created) == UndirectedRolledRows(rels0, order, i, draws, actor, date)
      {
        for j := 0 to |order|
          invariant (relationships, created) == UndirectedRolledCols(rels0, order, i, j, draws, actor, date)
        {
          assert UndirectedRolledCols(rels0, order, i, j + 1, draws, actor, date) ==
            var prev := UndirectedRolledCols(rels0, order, i, j, draws, actor, date);
            if i < j then Visit(prev, SortedKey(order[i], order[j]), draws, actor, date) else prev;
          if i < j {
            var key := SortedKey(order[i], order[j]);
            if key !in relationships {
              relationships := relationships[key := NewRecord(draws(created), actor, date)];
              created := created + 1;
            }
          }
        }
      }
      r := Ok(created);
      UndirectedRolledRowsKeys(rels0, order, |order|, draws, actor, date);
      if old(Valid()) {
        RollMissingWellFormed(old(relationships), UndirectedKeys(order), draws, actor, date);
      }
    }

    /** `!таблица`: refused while there are no relationships or no
        characters; otherwise the sorted names and the undirected cells. */
    method ShowRelationshipTable() returns (r: Result<Table>)
      ensures relationships == map[] ==> r == Err(NoRelationships)
      ensures relationships != map[] && characters == map[] ==> r == Err(NoCharacters)
      ensures relationships != map[] && characters != map[] ==> (
        && r.Ok?
        && StrictlySorted(r.value.names) && (forall x :: x in r.value.names <==> x in characters)
        && |r.value.rows| == |r.value.names|
        && (forall i :: 0 <= i < |r.value.rows| ==> |r.value.rows[i]| == |r.value.names|)
        && (forall i, j :: 0 <= i < |r.value.names| && 0 <= j < |r.value.names| ==>
              r.value.rows[i][j] == UndirectedCell(relationships, r.value.names[i], r.value.names[j])))
    {
      if relationships == map[] {
        return Err(NoRelationships);
      }
      var names := SortNames(characters.Keys);
      if |names| == 0 {
        assert characters.Keys == {};
        return Err(NoCharacters);
      }
      var rels := relationships;
      var rows := Matrix(names, (row, col) => UndirectedCell(rels, row, col));
      r := Ok(Table(names, rows));
    }

    /** `!отношения [name]`. An unknown name is refused before anything else.
        With a name: the other name of every key holding it, largest value
        first. Without one: every relationship, largest value first, as the
        pair its key reads back as. Both loops raise at a key that `eval`
        cannot read back as a pair. `keyOrder` is the dictionary order of
        the keys. */
    method ShowDetailedRelationships(characterName: Option<string>, keyOrder: seq<string>) returns (r: Result<Detail>)
      requires IsListing(keyOrder, relationships.Keys)
      ensures characterName.Some? && characterName.value != [] && characterName.value !in characters ==>
        r == Err(NotFound(characterName.value))
      ensures (characterName.None? || characterName.value == [] || characterName.value in characters) && relationships == map[] ==>
        r == Err(NoRelationships)
      ensures characterName.Some? && characterName.value != [] && characterName.value in characters && relationships != map[] ==>
        var name := characterName.value;
        r == PartnerDetail(name, EvalPartners(relationships, name, keyOrder))
      ensures (characterName.None? || characterName.value == []) && relationships != map[] ==>
        && (forall k :: k in SortDesc(keyOrder, ValueOf(relationships)) ==> k in relationships)
        && r == EdgeDetail(EvalEdges(relationships, SortDesc(keyOrder, ValueOf(relationships))))
    {
      if characterName.Some? && characterName.value != [] && characterName.value !in characters {
        return Err(NotFound(characterName.value));
      }
      if relationships == map[] {
        return Err(NoRelationships);
      }
      if characterName.Some? && characterName.value != [] {
        r := CharacterDetail(characterName.value, keyOrder);
      } else {
        r := AllDetail(keyOrder);
      }
    }

    /** The branch with a name: the loop over the items, then the partners
        sorted by value, largest first. */
    method CharacterDetail(name: string, keyOrder: seq<string>) returns (r: Result<Detail>)
      requires IsListing(keyOrder, relationships.Keys)
      ensures r == PartnerDetail(name, EvalPartners(relationships, name, keyOrder))
    {
      var list: seq<Partner> := [];
      for i := 0 to |keyOrder|
        invariant EvalPartners(relationships, name, keyOrder[..i]) == Ok(list)
      {
        var k := keyOrder[i];
        assert keyOrder[..i + 1][..i] == keyOrder[..i];
        assert k in relationships;
        match ParsePair(k) {
          case None =>
            EvalPartnersPrefixErr(relationships, name, keyOrder, i + 1);
            return Err(UnparseableKey(k));
          case Some(p) =>
            if p.0 == name || p.1 == name {
              list := list + [Partner(if p.1 == name then p.0 else p.1, relationships[k])];
            }
        }
      }
      assert keyOrder[..|keyOrder|] == keyOrder;
      if list == [] {
        return Ok(NoRelationsFor(name));
      }
      r := Ok(PartnerView(name, SortDesc(list, PartnerValue)));
    }

    /** The branch without a name: the items sorted by value, largest
        first, each read back as the pair of its key. */
    method AllDetail(keyOrder: seq<string>) returns (r: Result<Detail>)
      requires IsListing(keyOrder, relationships.Keys)
      ensures forall k :: k in SortDesc(keyOrder, ValueOf(relationships)) ==> k in relationships
      ensures r == EdgeDetail(EvalEdges(relationships, SortDesc(keyOrder, ValueOf(relationships))))
    {
      var keys := SortDesc(keyOrder, ValueOf(relationships));
      SortedKeys(relationships, keyOrder);
      var edges: seq<Edge> := [];
      for i := 0 to |keys|
        invariant EvalEdges(relationships, keys[..i]) == Ok(edges)
      {
        var k := keys[i];
        EvalEdgesSnoc(relationships, keys, i);
        match ParsePair(k) {
          case None =>
            EvalEdgesPrefixErr(relationships, keys, i + 1);
            return Err(UnparseableKey(k));
          case Some(p) =>
            edges := edges + [Edge(p.0, p.1, relationships[k])];
        }
      }
      assert keys[..|keys|] == keys;
      r := Ok(EdgeView(edges));
    }

    /** `!перебросить a b`: the record under the sorted key of the two names,
        so (a, b) and (b, a) reach the same record, is overwritten with the
        new draw; a missing key is refused. Returns the old and new values. */
    method RerollRelationship(char1: string, char2: string, draw: int, actor: UserId, date: string) returns (r: Result<(int, int)>)
      requires IsDraw(draw)
      modifies this`relationships
      ensures SortedKey(char1, char2) !in old(relationships) ==>
        r == Err(RelationshipNotFound(char1, char2)) && relationships == old(relationships)
      ensures SortedKey(char1, char2) in old(relationships) ==>
        var key := SortedKey(char1, char2);
        r == Ok((old(relationships)[key].value, draw))
        && relationships == old(relationships)[key := Rerolled(old(relationships)[key], draw, actor, date)]
      ensures old(Valid()) ==> Valid()
    {
      var key := SortedKey(char1, char2);
      if key !in relationships {
        return Err(RelationshipNotFound(char1, char2));
      }
      var oldValue := relationships[key].value;
      relationships := relationships[key := Rerolled(relationships[key], draw, actor, date)];
      r := Ok((oldValue, draw));
    }
  }

  /** Rerolling (a, b) and rerolling (b, a) do the same thing. */
  lemma {:induction false} RerollSymmetric(rels: map<string, Record>, a: string, b: string, draw: int, actor: UserId, date: string)
    requires IsDraw(draw)
    requires SortedKey(a, b) in rels
    ensures SortedKey(b, a) in rels
    ensures rels[SortedKey(a, b) := Rerolled(rels[SortedKey(a, b)], draw, actor, date)] ==
            rels[SortedKey(b, a) := Rerolled(rels[SortedKey(b, a)], draw, actor, date)]
  {
    SortedKeySymmetric(a, b);
  }

  /** A reroll changes no other record, and leaves the other cells of the
      matrix as they were. */
  lemma {:induction false} RerollFrame(rels: map<string, Record>, a: string, b: string, draw: int, actor: UserId, date: string, r: string, c: string)
    requires IsDraw(draw)
    requires SortedKey(a, b) in rels && a != b
    requires !((r == a && c == b) || (r == b && c == a))
    ensures UndirectedCell(rels[SortedKey(a, b) := Rerolled(rels[SortedKey(a, b)], draw, actor, date)], r, c) == UndirectedCell(rels, r, c)
  {
    UndirectedCellWrite(rels, a, b, Rerolled(rels[SortedKey(a, b)], draw, actor, date), r, c);
  }
}
