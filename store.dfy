/** The data every revision of the relationship cog shares: the records kept
    in the two dictionaries, the value-to-label table, the error replies, the
    missing-pair roll that all three `roll_relationships` handlers perform,
    the exact-match cascade of the two literal_eval revisions, and Python's
    `sorted(..., key=..., reverse=True)`. */
module Store {
  import opened Text
  import opened Keys

  /** A Discord user id (`ctx.author.id`). */
  type UserId = int

  /** `characters[name]`: who added the character and when. */
  datatype CharacterInfo = CharacterInfo(addedBy: UserId, addedDate: string)

  /** The `rerolled_by` / `reroll_date` pair a reroll attaches. */
  datatype Reroll = Reroll(rerolledBy: UserId, rerollDate: string)

  /** `relationships[key]`. */
  datatype Record = Record(value: int, description: string, rolledBy: UserId, rollDate: string, reroll: Option<Reroll>)

  /** How a handler fails. Every case but the last is a reply the handler
      sends instead of doing its work. `UnparseableKey` is the exception
      `eval` raises on a key it cannot read back: nothing catches it, so the
      command stops and no reply is sent. */
  datatype Error =
    | EmptyName
    | AlreadyExists(name: string)
    | NotFound(name: string)
    | NotEnoughCharacters
    | SelfRelation
    | NoRelationships
    | NoCharacters
    | RelationshipNotFound(from: string, to: string)
    | UnparseableKey(key: string)

  datatype Result<+T> = Ok(value: T) | Err(error: Error)

  /** A draw of `random.randint(1, 10)`. */
  predicate IsDraw(v: int) {
    1 <= v <= 10
  }

  /** `relationship_descriptions[v]`, the same table in every revision: five
      colour bands of two values each, the colour leading the label. */
  function Label(v: int): (l: string)
    requires IsDraw(v)
    ensures |l| > 2 && l[1] == ' '
  {
    match v
    case 1 => "🔴 Вражда"
    case 2 => "🔴 Конфликт"
    case 3 => "🟡 Напряжение"
    case 4 => "🟡 Нейтрально"
    case 5 => "🟢 Дружелюбие"
    case 6 => "🟢 Симпатия"
    case 7 => "🔵 Дружба"
    case 8 => "🔵 Близость"
    case 9 => "💖 Любовь"
    case 10 => "💖 Душа"
  }

  /** The record `roll_relationships` stores for a fresh pair. */
  function NewRecord(draw: int, actor: UserId, date: string): Record
    requires IsDraw(draw)
  {
    Record(draw, Label(draw), actor, date, None)
  }

  /** A record as a roll leaves it: a value in 1..10 and the matching label. */
  predicate IsRolled(r: Record, actor: UserId, date: string) {
    IsDraw(r.value) && r.description == Label(r.value) && r.rolledBy == actor && r.rollDate == date && r.reroll == None
  }

  /** Every stored record has a value in 1..10 and that value's label: what
      the handlers that write records keep true. */
  ghost predicate WellFormed(rels: map<string, Record>) {
    forall k :: k in rels ==> IsDraw(rels[k].value) && rels[k].description == Label(rels[k].value)
  }

  /** One visit of the roll loops to `key`: when the key is missing, store a
      record holding the next unused draw and count it. */
  function Visit(state: (map<string, Record>, nat), key: string, draws: nat -> int, actor: UserId, date: string): (res: (map<string, Record>, nat))
    requires forall n: nat :: IsDraw(draws(n))
    ensures key in res.0
    ensures key in state.0 ==> res == state
    ensures key !in state.0 ==> res.1 == state.1 + 1 && IsRolled(res.0[key], actor, date) && res.0[key].value == draws(state.1)
  {
    if key in state.0 then state
    else (state.0[key := NewRecord(draws(state.1), actor, date)], state.1 + 1)
  }

  /** The body of the nested roll loops once the order in which they visit
      keys is fixed: visit `keys` in order. Returns the new map and the number
      of records created, which is also the number of draws used. */
  function RollMissing(rels: map<string, Record>, keys: seq<string>, draws: nat -> int, actor: UserId, date: string): (res: (map<string, Record>, nat))
    requires forall n: nat :: IsDraw(draws(n))
    ensures res.1 <= |keys|
    decreases |keys|
  {
    if keys == [] then (rels, 0)
    else Visit(RollMissing(rels, keys[..|keys| - 1], draws, actor, date), keys[|keys| - 1], draws, actor, date)
  }

  /** One more visited key: the step the loop body takes. */
  lemma {:induction false} RollMissingStep(rels: map<string, Record>, keys: seq<string>, k: string, draws: nat -> int, actor: UserId, date: string)
    requires forall n: nat :: IsDraw(draws(n))
    ensures RollMissing(rels, keys + [k], draws, actor, date) == Visit(RollMissing(rels, keys, draws, actor, date), k, draws, actor, date)
  {
    assert (keys + [k])[..|keys|] == keys;
  }

  /** Rolling leaves every existing record as it was, adds exactly the visited
      keys, and gives every new record a value in 1..10 with its label. */
  lemma {:induction false} RollMissingEffect(rels: map<string, Record>, keys: seq<string>, draws: nat -> int, actor: UserId, date: string)
    requires forall n: nat :: IsDraw(draws(n))
    ensures var res := RollMissing(rels, keys, draws, actor, date);
      && (forall k :: k in res.0 <==> k in rels || k in keys)
      && (forall k :: k in rels ==> res.0[k] == rels[k])
      && (forall k :: k in res.0 && k !in rels ==> IsRolled(res.0[k], actor, date))
    decreases |keys|
  {
    if keys != [] {
      var init := keys[..|keys| - 1];
      RollMissingEffect(rels, init, draws, actor, date);
      assert forall k :: k in keys <==> k in init || k == keys[|keys| - 1] by {
        assert keys == init + [keys[|keys| - 1]];
      }
    }
  }

  /** Rolling keeps every record well formed. */
  lemma {:induction false} RollMissingWellFormed(rels: map<string, Record>, keys: seq<string>, draws: nat -> int, actor: UserId, date: string)
    requires forall n: nat :: IsDraw(draws(n))
    requires WellFormed(rels)
    ensures WellFormed(RollMissing(rels, keys, draws, actor, date).0)
  {
    RollMissingEffect(rels, keys, draws, actor, date);
  }

  /** The counter `relationships_created` is the number of new keys. */
  lemma {:induction false} RollMissingCount(rels: map<string, Record>, keys: seq<string>, draws: nat -> int, actor: UserId, date: string)
    requires forall n: nat :: IsDraw(draws(n))
    ensures var res := RollMissing(rels, keys, draws, actor, date);
      rels.Keys <= res.0.Keys && res.1 == |res.0.Keys - rels.Keys|
    decreases |keys|
  {
    if keys != [] {
      var init := keys[..|keys| - 1];
      var prev := RollMissing(rels, init, draws, actor, date);
      RollMissingCount(rels, init, draws, actor, date);
      VisitCount(rels, prev, keys[|keys| - 1], draws, actor, date);
    }
  }

  /** One visit keeps the counter equal to the number of new keys. */
  lemma {:induction false} VisitCount(rels: map<string, Record>, state: (map<string, Record>, nat), k: string, draws: nat -> int, actor: UserId, date: string)
    requires forall n: nat :: IsDraw(draws(n))
    requires rels.Keys <= state.0.Keys && state.1 == |state.0.Keys - rels.Keys|
    ensures var res := Visit(state, k, draws, actor, date);
      rels.Keys <= res.0.Keys && res.1 == |res.0.Keys - rels.Keys|
  {
    if k !in state.0 {
      NewKeyCount(state.0, rels.Keys, k, NewRecord(draws(state.1), actor, date));
    }
  }

  lemma {:induction false} NewKeyCount<K, V>(m: map<K, V>, b: set<K>, k: K, v: V)
    requires b <= m.Keys && k !in m
    ensures b <= m[k := v].Keys
    ensures |m[k := v].Keys - b| == |m.Keys - b| + 1
  {
    assert m[k := v].Keys - b == (m.Keys - b) + {k};
  }

  /** Keys already present are skipped: rolling over keys that are all
      present creates nothing. */
  lemma {:induction false} RollMissingSaturated(rels: map<string, Record>, keys: seq<string>, draws: nat -> int, actor: UserId, date: string)
    requires forall n: nat :: IsDraw(draws(n))
    requires forall k :: k in keys ==> k in rels
    ensures RollMissing(rels, keys, draws, actor, date) == (rels, 0)
    decreases |keys|
  {
    if keys != [] {
      var init := keys[..|keys| - 1];
      assert forall k :: k in init ==> k in keys;
      RollMissingSaturated(rels, init, draws, actor, date);
      assert keys[|keys| - 1] in keys;
    }
  }

  /** Rolling over distinct keys none of which is present creates one record
      per key. */
  lemma {:induction false} RollMissingFresh(rels: map<string, Record>, keys: seq<string>, draws: nat -> int, actor: UserId, date: string)
    requires forall n: nat :: IsDraw(draws(n))
    requires NoDup(keys)
    requires forall k :: k in keys ==> k !in rels
    ensures RollMissing(rels, keys, draws, actor, date).1 == |keys|
    decreases |keys|
  {
    if keys != [] {
      var init := keys[..|keys| - 1];
      var last := keys[|keys| - 1];
      assert NoDup(init);
      assert forall k :: k in init ==> k in keys;
      RollMissingFresh(rels, init, draws, actor, date);
      RollMissingEffect(rels, init, draws, actor, date);
      assert forall p :: 0 <= p < |init| ==> init[p] != last by {
        forall p | 0 <= p < |init| ensures init[p] != last {
          assert init[p] == keys[p];
        }
      }
      assert last in keys;
    }
  }

  /** The relationships left after removing `name` in the literal_eval
      revisions: every key that parses to a tuple holding `name` goes, and
      every other key, unparseable ones included, stays with its record. */
  function Cascade(rels: map<string, Record>, name: string): (r: map<string, Record>)
    ensures r.Keys <= rels.Keys
  {
    map k | k in rels && !Mentions(k, name) :: rels[k]
  }

  /** No relationship of the removed name survives, in either direction. */
  lemma {:induction false} CascadeComplete(rels: map<string, Record>, name: string)
    ensures forall k :: k in Cascade(rels, name) ==> !Mentions(k, name)
    ensures forall other :: Encode(name, other) !in Cascade(rels, name) && Encode(other, name) !in Cascade(rels, name)
  {
    forall other ensures Encode(name, other) !in Cascade(rels, name) && Encode(other, name) !in Cascade(rels, name) {
      MentionsEncode(name, other, name);
      MentionsEncode(other, name, name);
    }
  }

  /** Nothing else changes: keys not mentioning the name, among them every
      key that does not parse, keep their records. */
  lemma {:induction false} CascadeFrame(rels: map<string, Record>, name: string)
    ensures forall k :: k in rels && !Mentions(k, name) ==> k in Cascade(rels, name) && Cascade(rels, name)[k] == rels[k]
    ensures forall k :: k in rels && Parse(k) == None ==> k in Cascade(rels, name)
    ensures forall a, b :: a != name && b != name && Encode(a, b) in rels ==> Encode(a, b) in Cascade(rels, name)
  {
    forall a, b | a != name && b != name && Encode(a, b) in rels
      ensures Encode(a, b) in Cascade(rels, name)
    {
      MentionsEncode(a, b, name);
    }
  }

  /** `sorted(xs, key=key, reverse=True)`: stable, largest key first. */
  function SortDesc<T>(xs: seq<T>, key: T -> int): (r: seq<T>)
    decreases |xs|
  {
    if xs == [] then [] else InsertDesc(xs[|xs| - 1], SortDesc(xs[..|xs| - 1], key), key)
  }

  /** Places `x` after every element whose key is at least its own. */
  function InsertDesc<T>(x: T, s: seq<T>, key: T -> int): (r: seq<T>)
    decreases |s|
  {
    if s == [] then [x]
    else if key(s[0]) >= key(x) then [s[0]] + InsertDesc(x, s[1..], key)
    else [x] + s
  }

  ghost predicate Descending<T>(s: seq<T>, key: T -> int) {
    forall p, q :: 0 <= p < q < |s| ==> key(s[p]) >= key(s[q])
  }

  lemma {:induction false} InsertDescPerm<T>(x: T, s: seq<T>, key: T -> int)
    ensures multiset(InsertDesc(x, s, key)) == multiset(s) + multiset{x}
    decreases |s|
  {
    if s != [] && key(s[0]) >= key(x) {
      InsertDescPerm(x, s[1..], key);
      assert s == [s[0]] + s[1..];
    }
  }

  lemma {:induction false} DescendingTail<T>(s: seq<T>, key: T -> int)
    requires Descending(s, key) && s != []
    ensures Descending(s[1..], key)
    ensures forall e :: e in s[1..] ==> key(s[0]) >= key(e)
  {
    forall p, q | 0 <= p < q < |s[1..]| ensures key(s[1..][p]) >= key(s[1..][q]) {
      assert s[1..][p] == s[p + 1] && s[1..][q] == s[q + 1];
    }
    forall e | e in s[1..] ensures key(s[0]) >= key(e) {
      var p :| 0 <= p < |s[1..]| && s[1..][p] == e;
      assert s[p + 1] == e;
    }
  }

  lemma {:induction false} DescendingCons<T>(h: T, t: seq<T>, key: T -> int)
    requires Descending(t, key)
    requires forall e :: e in t ==> key(h) >= key(e)
    ensures Descending([h] + t, key)
  {
    forall p, q | 0 <= p < q < |[h] + t| ensures key(([h] + t)[p]) >= key(([h] + t)[q]) {
      assert ([h] + t)[q] == t[q - 1];
      if p == 0 {
        assert t[q - 1] in t;
      } else {
        assert ([h] + t)[p] == t[p - 1];
      }
    }
  }

  lemma {:induction false} InsertDescSorted<T>(x: T, s: seq<T>, key: T -> int)
    requires Descending(s, key)
    ensures Descending(InsertDesc(x, s, key), key)
    decreases |s|
  {
    if s != [] {
      if key(s[0]) >= key(x) {
        DescendingTail(s, key);
        InsertDescSorted(x, s[1..], key);
        var t := InsertDesc(x, s[1..], key);
        InsertDescPerm(x, s[1..], key);
        forall e | e in t ensures key(s[0]) >= key(e) {
          assert e in multiset(t);
        }
        DescendingCons(s[0], t, key);
      } else {
        DescendingTail(s, key);
        assert s == [s[0]] + s[1..];
        DescendingCons(x, s, key);
      }
    }
  }

  /** sorted(..., reverse=True) returns its input, reordered, largest first. */
  lemma {:induction false} SortDescProps<T>(xs: seq<T>, key: T -> int)
    ensures Descending(SortDesc(xs, key), key)
    ensures multiset(SortDesc(xs, key)) == multiset(xs)
    ensures |SortDesc(xs, key)| == |xs|
    decreases |xs|
  {
    if xs != [] {
      var init := xs[..|xs| - 1];
      SortDescProps(init, key);
      InsertDescSorted(xs[|xs| - 1], SortDesc(init, key), key);
      InsertDescPerm(xs[|xs| - 1], SortDesc(init, key), key);
      assert xs == init + [xs[|xs| - 1]];
      assert |SortDesc(xs, key)| == |multiset(SortDesc(xs, key))| == |multiset(xs)| == |xs|;
    }
  }

  /** The elements of `s` whose key is `v`, in their order in `s`. */
  function WithKey<T>(s: seq<T>, key: T -> int, v: int): seq<T>
    decreases |s|
  {
    if s == [] then [] else (if key(s[0]) == v then [s[0]] else []) + WithKey(s[1..], key, v)
  }

  lemma {:induction false} WithKeyAppend<T>(a: seq<T>, b: seq<T>, key: T -> int, v: int)
    ensures WithKey(a + b, key, v) == WithKey(a, key, v) + WithKey(b, key, v)
    decreases |a|
  {
    if a == [] {
      assert a + b == b;
    } else {
      var h := if key(a[0]) == v then [a[0]] else [];
      WithKeyAppend(a[1..], b, key, v);
      assert (a + b)[0] == a[0] && (a + b)[1..] == a[1..] + b;
      assert WithKey(a + b, key, v) == h + WithKey(a[1..] + b, key, v);
      assert WithKey(a, key, v) == h + WithKey(a[1..], key, v);
    }
  }

  lemma {:induction false} WithKeyNone<T>(s: seq<T>, key: T -> int, v: int)
    requires forall e :: e in s ==> key(e) < v
    ensures WithKey(s, key, v) == []
    decreases |s|
  {
    if s != [] {
      assert s[0] in s;
      forall e | e in s[1..] ensures key(e) < v {
        var p :| 0 <= p < |s[1..]| && s[1..][p] == e;
        assert s[p + 1] == e;
      }
      WithKeyNone(s[1..], key, v);
    }
  }

  lemma {:induction false} WithKeyCons<T>(h: T, t: seq<T>, key: T -> int, v: int)
    ensures WithKey([h] + t, key, v) == (if key(h) == v then [h] else []) + WithKey(t, key, v)
  {
    assert ([h] + t)[0] == h && ([h] + t)[1..] == t;
  }

  /** In a descending list headed by a key below `v`, every key is below `v`. */
  lemma {:induction false} DescendingBelow<T>(s: seq<T>, key: T -> int, v: int)
    requires Descending(s, key) && s != [] && key(s[0]) < v
    ensures forall e :: e in s ==> key(e) < v
  {
    forall e | e in s ensures key(e) < v {
      var p :| 0 <= p < |s| && s[p] == e;
      if p > 0 {
        assert key(s[0]) >= key(s[p]);
      }
    }
  }

  /** Inserting into a descending list keeps the order of the equal keys:
      `x` lands after every element whose key equals its own. */
  lemma {:induction false} InsertDescStable<T>(x: T, s: seq<T>, key: T -> int, v: int)
    requires Descending(s, key)
    ensures WithKey(InsertDesc(x, s, key), key, v) == WithKey(s, key, v) + (if key(x) == v then [x] else [])
    decreases |s|
  {
    var xs: seq<T> := if key(x) == v then [x] else [];
    if s == [] {
      WithKeyCons(x, s, key, v);
      assert [x] + s == [x];
    } else if key(s[0]) >= key(x) {
      DescendingTail(s, key);
      InsertDescStable(x, s[1..], key, v);
      var t := InsertDesc(x, s[1..], key);
      assert InsertDesc(x, s, key) == [s[0]] + t;
      WithKeyCons(s[0], t, key, v);
      WithKeyCons(s[0], s[1..], key, v);
      assert s == [s[0]] + s[1..];
    } else {
      assert InsertDesc(x, s, key) == [x] + s;
      WithKeyCons(x, s, key, v);
      if key(x) == v {
        DescendingBelow(s, key, v);
        WithKeyNone(s, key, v);
      }
    }
  }

  /** `sorted` is stable: elements with equal keys keep their input order. */
  lemma {:induction false} SortDescStable<T>(xs: seq<T>, key: T -> int, v: int)
    ensures WithKey(SortDesc(xs, key), key, v) == WithKey(xs, key, v)
    decreases |xs|
  {
    if xs != [] {
      var init, last := xs[..|xs| - 1], xs[|xs| - 1];
      var sorted := SortDesc(init, key);
      var tail: seq<T> := if key(last) == v then [last] else [];
      assert Descending(sorted, key) by { SortDescProps(init, key); }
      calc {
        WithKey(SortDesc(xs, key), key, v);
        WithKey(InsertDesc(last, sorted, key), key, v);
        { InsertDescStable(last, sorted, key, v); }
        WithKey(sorted, key, v) + tail;
        { SortDescStable(init, key, v); }
        WithKey(init, key, v) + tail;
        { WithKeyCons(last, [], key, v); assert [last] + [] == [last]; }
        WithKey(init, key, v) + WithKey([last], key, v);
        { WithKeyAppend(init, [last], key, v); assert init + [last] == xs; }
        WithKey(xs, key, v);
      }
    }
  }
}
