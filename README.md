# Relationship store of the Vinculum Discord bot

The bot keeps two dictionaries in its `RelationshipSystem`:

- `characters` maps a name to who added it and when.
- `relationships` maps a key for a pair of names to a record. The record holds a value from 1 to 10, the value's label, who rolled it and when, and optionally who rerolled it and when.

Chat commands change the two dictionaries in place. They add and remove characters, roll a record for every pair still missing one, and reroll one record. Other commands only read them: the sorted character list, the relationship table, and the detailed lists.

The repository holds three revisions of this cog. Each one is modelled as its own `class RelationshipCog` whose fields are the two dictionaries:

- `DirectedRevision` (`directed.dfy`) models `cogs/relationships.py`, the live revision. Its keys are directed, `str((from, to))`, and it reads them back with `ast.literal_eval`.
- `UndirectedRevision` (`undirected.dfy`) models `cog/Relationships.py`. Its keys are undirected, `str(tuple(sorted([a, b])))`, read back with `ast.literal_eval`.
- `EarliestRevision` (`earliest.dfy`) models `Cog.py`. It is also undirected, but:
  - it takes names as typed;
  - it removes every key whose text contains the name as a substring;
  - it reads keys back with `eval`, which raises on a key it cannot read;
  - a reroll overwrites the value with the raw draw.

The shared parts sit in separate modules:

- `Text`: `str.strip`, Python's string order, `sorted` on names, substring tests.
- `Keys`: the key encoding `str((a, b))` and its parser, the sorted key, and "the key names this character".
- `Store`: the records and the label table. It also holds the missing-pair roll common to all three revisions, the exact-match cascade, and `sorted(..., reverse=True)`.
- `Pairs`: the order in which the nested roll loops visit keys.
- `Rolls`: the roll loops themselves, step by step, and what a roll does to the store.
- `Views`: table cells and the detail lists.

Handler methods return a `Result`. Every error case but one is a reply the handler sends instead of doing its work. The exception is `UnparseableKey`, which stands for the exception `eval` raises in `Cog.py` on a key it cannot read back. Nothing catches that exception, so the command stops and sends no reply. Each method's `ensures` gives the whole new state as a function of the old one. The lemmas prove what that state means:

- cascade completeness and frame;
- roll coverage, exact counts and idempotence;
- value bounds;
- symmetry or asymmetry of the matrix;
- key round trips.

Some things the handlers read are supplied by the caller:

- The dictionary order of the characters and of the keys is a parameter (`order`, `keyOrder`). Each must be a duplicate-free listing of the dictionary's keys.
- `random.randint(1, 10)` is a parameter: one draw, or for a roll a stream `draws` whose n-th element is the n-th draw used.
- The user id and the date are parameters (`actor`, `date`).

## Model

| member | source | states |
|---|---|---|
| DirectedRevision.RelationshipCog.constructor | cogs/relationships.py:26 | the cog starts from the two dictionaries the system loaded |
| DirectedRevision.RelationshipCog.AddCharacter | cogs/relationships.py:72-86 | the name is stripped; an empty or known name is refused and nothing changes; otherwise exactly that name is added, with the user and date, and relationships are untouched |
| DirectedRevision.RelationshipCog.RemoveCharacter | cogs/relationships.py:96-117 | an empty or unknown stripped name is refused and nothing changes; otherwise the name leaves characters and relationships become `Cascade`; well-formed records stay well formed |
| DirectedRevision.RelationshipCog.ListCharacters | cogs/relationships.py:123-133 | no characters is refused; otherwise the result is strictly sorted and holds exactly the character names |
| DirectedRevision.RelationshipCog.RollRelationships | cogs/relationships.py:139-164 | fewer than two characters is refused and nothing changes; otherwise the nested loops leave the store and the counter that `RollMissing` gives over `DirectedKeys(order)`, and keep records well formed |
| DirectedRevision.RelationshipCog.ShowRelationshipTable | cogs/relationships.py:176-202 | no relationships is refused; otherwise rows and columns are the sorted names and cell (i, j) is `DirectedCell` of those names |
| DirectedRevision.RelationshipCog.ShowDetailedRelationships | cogs/relationships.py:222-275 | no relationships is refused; an unknown stripped name is refused; a name with no outgoing record gets the "no relationships" reply; otherwise it gets its outgoing list in the corrected order; without a name it gets every parseable key's edge, in key order, sorted by descending value |
| DirectedRevision.RelationshipCog.RerollRelationship | cogs/relationships.py:280-307 | the two stripped names: an empty name, equal names, or a missing directed key is refused; otherwise the result is `Adjust` of the stored value and the draw; the store is never changed |
| DirectedRevision.DirectedCellIndependent | cogs/relationships.py:191-202 | writing the record from c to r leaves cell (r, c) unchanged: the two cells read independent keys |
| DirectedRevision.DirectedCellAsymmetric | cogs/relationships.py:191-202 | with only a to b stored, cell (a, b) shows the value and cell (b, a) shows "?" |
| DirectedRevision.Adjust | cogs/relationships.py:302-307 | a new value is bound exactly when the draw exceeds the old value or is 1; a higher draw gives the old value plus one below 10 and 10 from 10 up; a draw of 1 gives the old value minus one above 1 and 1 from 1 down |
| DirectedRevision.AdjustBounds | cogs/relationships.py:302-307 | for values in 1..10: an adjustment exists exactly when the draw exceeds the old value or is 1; it stays in 1..10; a higher draw gives exactly the old value plus one; a draw of 1 gives the old value minus one, or 1 when the old value is 1 |
| DirectedRevision.DirectedCell | cogs/relationships.py:191-202 | the diagonal is the self marker; an off-diagonal cell is "?" exactly when the directed key of (row, col) is absent, and otherwise that record's value |
| DirectedRevision.SortOutgoing | cogs/relationships.py:247-255 | the corrected sort of the outgoing list is a permutation of it; order and placement are in `SortOutgoingProps` |
| DirectedRevision.SourceSortKey | cogs/relationships.py:253 | the sort key as written: the value for an entry with a record, the tuple `(0, name)` for one without; no contract of its own, `MixedOutgoingRaises` is stated with it |
| DirectedRevision.Comparable | cogs/relationships.py:251-255 | Python 3's `<` between two sort keys is defined only for two ints or two tuples; no contract of its own, `MixedOutgoingRaises` is stated with it |
| DirectedRevision.MixedOutgoingRaises | cogs/relationships.py:251-255 | once the list mixes characters with and without a record, every arrangement has two neighbours whose sort keys are an int and a tuple, which Python cannot compare |
| DirectedRevision.SortOutgoingProps | cogs/relationships.py:247-255 | the corrected order is a permutation of the list, descending by value, with every character that has a record before every character without one |
| UndirectedRevision.RelationshipCog.constructor | cog/Relationships.py:14 | the cog starts from the two dictionaries the system loaded |
| UndirectedRevision.RelationshipCog.AddCharacter | cog/Relationships.py:29-43 | the name is stripped; an empty or known name is refused and nothing changes; otherwise exactly one key is added and relationships are untouched |
| UndirectedRevision.RelationshipCog.RemoveCharacter | cog/Relationships.py:53-75 | an empty or unknown stripped name is refused and nothing changes; otherwise the name leaves characters and relationships become `Cascade`, an exact match on the parsed elements |
| UndirectedRevision.RelationshipCog.ListCharacters | cog/Relationships.py:81-91 | no characters is refused; otherwise the result is strictly sorted and holds exactly the character names |
| UndirectedRevision.RelationshipCog.RollRelationships | cog/Relationships.py:97-122 | fewer than two characters is refused and nothing changes; otherwise the store and the counter are `RollMissing` over `UndirectedKeys(order)`, and records stay well formed |
| UndirectedRevision.RelationshipCog.ShowRelationshipTable | cog/Relationships.py:134-160 | no relationships is refused; otherwise rows and columns are the sorted names and cell (i, j) is `UndirectedCell` of those names |
| UndirectedRevision.RelationshipCog.ShowDetailedRelationships | cog/Relationships.py:177-213 | no relationships is refused; an unknown stripped name is refused; a name with no partner gets the "no relationships" reply; otherwise it gets the other name of every parseable key holding it, sorted by descending value |
| EarliestRevision.RelationshipCog.constructor | Cog.py:9 | the cog starts from the two dictionaries the system loaded |
| EarliestRevision.RelationshipCog.AddCharacter | Cog.py:24-33 | the name is taken as typed; a known name is refused with characters unchanged; otherwise exactly that name is added; relationships are untouched |
| EarliestRevision.RelationshipCog.RemoveCharacter | Cog.py:44-54 | an unknown name is refused and nothing changes; otherwise the name leaves characters and relationships become `SubstringCascade` |
| EarliestRevision.RelationshipCog.ListCharacters | Cog.py:193-203 | no characters is refused; otherwise the result is strictly sorted and holds exactly the character names |
| EarliestRevision.RelationshipCog.RollRelationships | Cog.py:60-87 | fewer than two characters is refused and nothing changes; otherwise the store and the counter are `RollMissing` over `UndirectedKeys(order)`, and records stay well formed |
| EarliestRevision.RelationshipCog.ShowRelationshipTable | Cog.py:99-128 | no relationships is refused; then no characters is refused; otherwise cell (i, j) of the sorted names is `UndirectedCell` |
| EarliestRevision.RelationshipCog.ShowDetailedRelationships | Cog.py:145-188 | an unknown name is refused first, then an empty store; with a name the result is the partner loop's outcome; without one it is the outcome of reading back the value-sorted keys |
| EarliestRevision.RelationshipCog.CharacterDetail | Cog.py:157-176 | the result is `EvalPartners` over the keys: its error, the "no relationships" reply, or the partners sorted by descending value |
| EarliestRevision.RelationshipCog.AllDetail | Cog.py:177-188 | the sorted keys are stored keys, and the result is `EvalEdges` over the keys sorted by descending value: its error or its edges |
| EarliestRevision.RelationshipCog.RerollRelationship | Cog.py:209-228 | a missing sorted key is refused and nothing changes; otherwise that record alone becomes `Rerolled`, and the old and new values are returned |
| EarliestRevision.Rerolled | Cog.py:221-228 | the rerolled record holds the raw draw with its label, keeps the original roll's user and date, and records the reroll |
| EarliestRevision.RerollSymmetric | Cog.py:211 | rerolling (a, b) and rerolling (b, a) reach the same record and leave the same store |
| EarliestRevision.RerollFrame | Cog.py:221-228 | a reroll of {a, b} leaves every other cell of the matrix unchanged |
| EarliestRevision.ValueOf | Cog.py:182 | the key `x[1]["value"]` of the all-relationships sort; no contract of its own, `SortedKeys` states the order it gives |
| EarliestRevision.SubstringCascade | Cog.py:52-54 | removal never adds a key; which keys go and which stay is in `SubstringCascadeComplete` and `SubstringCascadeFrame` |
| EarliestRevision.EvalPartners | Cog.py:159-164 | the per-character loop as written: on success at most one partner per key; an error names a key of the loop that does not read back as a pair |
| EarliestRevision.EvalEdges | Cog.py:180-186 | the all-relationships loop as written: on success one edge per key; an error names a key of the loop that does not read back as a pair |
| EarliestRevision.PartnerDetail | Cog.py:166-176 | what the per-character branch shows after its loop (the loop's exception, the "no relationships" reply, or the partners by descending value); no contract of its own, it is the right-hand side of `CharacterDetail`'s |
| EarliestRevision.EdgeDetail | Cog.py:177-188 | what the branch without a name shows after its loop (the loop's exception or its edges); no contract of its own, it is the right-hand side of `AllDetail`'s |
| EarliestRevision.SubstringCascadeComplete | Cog.py:52-54 | no key of a pair holding a plain removed name survives, in either order |
| EarliestRevision.SubstringCascadeFrame | Cog.py:52-54 | nothing is added; keys whose text does not contain the name keep their records, and keys whose text does contain it are gone |
| EarliestRevision.SubstringCascadeCoversCascade | Cog.py:53 | for a plain name, the substring test removes at least what the later revisions' exact test removes |
| EarliestRevision.SubstringCascadeOverreach | Cog.py:53 | removing "An" also removes the record of "Ann" and "Bob"; the exact cascade keeps it |
| EarliestRevision.PlainNameInKey | Cog.py:53 | a plain name occurs in the text of every key of a pair that holds it |
| EarliestRevision.SubstringOfKey | Cog.py:53 | text occurring in a plain name also occurs in the key of any pair holding that name |
| EarliestRevision.EvalPartnersSpec | Cog.py:159-164 | the per-character loop succeeds exactly when every key reads back as a pair, and then collects what `PartnersIn` collects; an error names a key that does not read back |
| EarliestRevision.EvalPartnersPrefixErr | Cog.py:160-161 | an error on a prefix of the keys is the error of the whole loop |
| EarliestRevision.EvalEdgesSpec | Cog.py:180-186 | the all-relationships loop succeeds exactly when every key reads back as a pair, and then yields one edge per key, in order, holding the pair and its record; an error names an unreadable key |
| EarliestRevision.EvalEdgesPrefixErr | Cog.py:185 | an error on a prefix of the sorted keys is the error of the whole loop |
| EarliestRevision.SortedKeys | Cog.py:180-184 | the sorted items are the stored keys, in descending order of value |
| EarliestRevision.AllEdgesProps | Cog.py:179-188 | when every key reads back, the view lists exactly the stored relationships as the edges of their pairs, in descending order of value |
| EarliestRevision.AllEdgesSorted | Cog.py:180-184 | the edges come in descending order of value |
| EarliestRevision.AllEdgesSound | Cog.py:185-186 | every edge is a stored relationship under the key of its pair |
| EarliestRevision.AllEdgesComplete | Cog.py:180-186 | every stored relationship appears as the edge of its pair |
| Keys.Encode | cogs/relationships.py:153 | `str((a, b))`, in the one fixed format; its round trip is `ParseEncode` and `EncodeParse` |
| Keys.Parse | cogs/relationships.py:111 | a key that reads back gives a tuple of exactly two names, and its text starts with "(" |
| Keys.ParsePair | Cog.py:161-163 | `chars[0]` and `chars[1]` of the evaluated key: defined exactly when the key parses, and then the two parsed elements in order |
| Keys.SortedKey | cog/Relationships.py:111 | the key of an unordered pair is the directed key of one of its two orders |
| Keys.ParseEncode | cogs/relationships.py:153 | reading back `str((a, b))` gives `(a, b)` |
| Keys.EncodeParse | cogs/relationships.py:111 | every key that reads back is the encoding of the pair it gives |
| Keys.EncodeEqual | cogs/relationships.py:153 | two directed keys are equal exactly when their pairs are |
| Keys.EncodeInjective | cogs/relationships.py:153 | different pairs have different keys |
| Keys.EncodePlain | Cog.py:75-77 | for names without quote or backslash, the key is literally `"('" + a + "', '" + b + "')"` |
| Keys.ParsePairSpec | Cog.py:161-163 | `eval` then `chars[0]`, `chars[1]` succeeds exactly when the key parses, and gives the pair the key encodes |
| Keys.ParsePairEncode | Cog.py:185-186 | an encoded key reads back as its pair |
| Keys.SortedKeySymmetric | Cog.py:75 | both orders of a pair have one sorted key |
| Keys.SortedKeyParse | cog/Relationships.py:111 | the sorted key reads back as the two names, smaller first |
| Keys.SortedKeyInjective | cog/Relationships.py:155 | two sorted keys are equal exactly when they come from the same unordered pair |
| Keys.SortedPair | cog/Relationships.py:111 | `tuple(sorted([a, b]))`, smaller name first; no contract of its own, `SortedKeyParse` and `SortedKeyInjective` state what its key reads back as |
| Keys.Mentions | cogs/relationships.py:110-115 | `ast.literal_eval(rel_key)` then `name in chars`, with a key that does not parse skipped; no contract of its own, `MentionsEncode` and `MentionsSortedKey` state that a pair's key mentions exactly its two names |
| Keys.MentionsEncode | cogs/relationships.py:111-112 | the parsed key of (a, b) holds a name exactly when the name is a or b |
| Keys.MentionsSortedKey | cog/Relationships.py:68-69 | the parsed sorted key of {a, b} holds a name exactly when the name is a or b |
| Store.Label | cogs/relationships.py:53-64 | each value 1..10 has its entry of `relationship_descriptions`: a colour mark, a space, then the word |
| Store.Visit | cogs/relationships.py:153-163 | after a visit the key is present; a present key changes nothing; a missing one gets a fresh roll holding the next unused draw, and the counter grows by one |
| Store.Cascade | cogs/relationships.py:106-117 | removal never adds a key; which keys go and which stay is in `CascadeComplete` and `CascadeFrame` |
| Store.SortDesc | cog/Relationships.py:209-211 | `sorted(xs, key=key, reverse=True)`, by stable insertion; no contract of its own, its properties are `SortDescProps` |
| Store.NewRecord | cogs/relationships.py:157-162 | the dictionary a roll stores: the draw, its label, the actor and the date, with no reroll; no contract of its own, `RollMissingEffect` states that every new record is such a roll |
| Store.RollMissing | cogs/relationships.py:155-164 | a roll creates at most one record per visited key |
| Store.RollMissingEffect | cogs/relationships.py:155-164 | afterwards the keys are the old keys plus the visited ones; old records are unchanged; every new record is freshly rolled, with a value in 1..10, its label, the user and the date |
| Store.RollMissingWellFormed | cogs/relationships.py:156-163 | a roll keeps every record's value in 1..10 with the matching label |
| Store.RollMissingCount | cogs/relationships.py:155-164 | no key is lost, and `relationships_created` equals the number of new keys |
| Store.RollMissingSaturated | cogs/relationships.py:155 | when every visited key is present, nothing is created and nothing changes |
| Store.RollMissingFresh | cogs/relationships.py:155-164 | over distinct keys none of which is present, one record is created per key |
| Store.CascadeComplete | cogs/relationships.py:106-117 | no surviving key names the removed character, in either position |
| Store.CascadeFrame | cogs/relationships.py:108-117 | keys not naming the character keep their records; keys that do not parse are never deleted; pairs of two other characters survive |
| Store.SortDescProps | cog/Relationships.py:209-211 | `sorted(..., reverse=True)` returns a permutation of its input, in descending order of the key |
| Store.SortDescStable | cog/Relationships.py:209-211 | `sorted` is stable: the elements with any one key value come out in the order they went in |
| Pairs.DirectedKeys | cogs/relationships.py:148-153 | the `str((char1, char2))` keys the nested loops visit, skipping `char1 == char2`, in visiting order; no contract of its own, `DirectedCoverage` and `DirectedCount` state which keys these are and how many |
| Pairs.DirectedRowsKeysPairs | cogs/relationships.py:148-153 | the directed loops visit the keys of the pairs they visit, in the same order |
| Pairs.DirectedPairsMembers | cogs/relationships.py:148-151 | the first i rows visit exactly the ordered pairs of different names whose first name is among the first i |
| Pairs.DirectedPairsShape | cogs/relationships.py:148-151 | with distinct names the first i rows visit i·(n−1) pairs, each once |
| Pairs.DirectedCoverage | cogs/relationships.py:148-153 | every ordered pair of different characters is visited, and every visited key reads back as such a pair, never (a, a) |
| Pairs.DirectedCount | cogs/relationships.py:148-153 | with distinct names n·(n−1) keys are visited, each once |
| Pairs.UndirectedKeys | cog/Relationships.py:106-111 | the `str(tuple(sorted([char1, char2])))` keys the loops visit for i<j, in visiting order (also Cog.py:69-75); no contract of its own, `UndirectedCoverage` and `UndirectedCount` state which keys these are and how many |
| Pairs.UndirectedPositionsMembers | cog/Relationships.py:106-109 | the first i rows visit exactly the positions c < d with c < i |
| Pairs.UndirectedPositionsShape | cog/Relationships.py:106-109 | the first i rows visit i·(2n−i−1)/2 positions, each once |
| Pairs.UndirectedRowsKeysPositions | Cog.py:69-75 | the undirected loops visit the sorted keys of the positions they visit, in the same order |
| Pairs.UndirectedCoverage | cog/Relationships.py:106-111 | the sorted key of every pair of different characters is visited, and every visited key reads back as two names of the listing, smaller first |
| Pairs.UndirectedCount | cog/Relationships.py:106-111 | with distinct names n·(n−1)/2 keys are visited, each once |
| Rolls.DirectedRolledRowsKeys | cogs/relationships.py:148-164 | the state the directed loops reach after i rows is `RollMissing` over the keys those rows visit |
| Rolls.DirectedRollEffect | cogs/relationships.py:141-164 | after a directed roll every ordered pair of different characters has a record; every new key is such a pair's key, holding a fresh roll; old records stay; the count is the number of new keys |
| Rolls.DirectedRollFromEmpty | cogs/relationships.py:148-164 | from an empty store, n distinct characters get n·(n−1) relationships |
| Rolls.DirectedRollIdempotent | cogs/relationships.py:153-164 | a second roll over the same characters, in any order and with any draws, returns 0 and changes nothing |
| Rolls.UndirectedRolledRowsKeys | cog/Relationships.py:106-122 | the state the undirected loops reach after i rows is `RollMissing` over the keys those rows visit |
| Rolls.UndirectedRollEffect | cog/Relationships.py:99-122 | after an undirected roll every pair of different characters has a record under its sorted key; every new key is the sorted key of such a pair, smaller name first, holding a fresh roll; old records stay; the count is the number of new keys |
| Rolls.UndirectedRollFromEmpty | Cog.py:69-87 | from an empty store, n distinct characters get n·(n−1)/2 relationships, one per unordered pair |
| Rolls.UndirectedRollIdempotent | Cog.py:77-87 | a second undirected roll over the same characters returns 0 and changes nothing |
| Views.CellAt | cogs/relationships.py:194-202 | the "—" / value / "?" choice for one cell, given the key its revision looks up; no contract of its own, `DirectedCell` and `UndirectedCell` state it for each key, and `UndirectedCellSymmetric` states the symmetry |
| Views.UndirectedCell | cog/Relationships.py:149-160 | the diagonal is the self marker; an off-diagonal cell is "?" exactly when the sorted key of the two names is absent, and otherwise that record's value |
| Views.UndirectedCellSymmetric | cog/Relationships.py:149-160 | cell (a, b) equals cell (b, a); the diagonal is the self marker; an off-diagonal cell is "?" exactly when the sorted key is absent |
| Views.UndirectedCellWrite | Cog.py:117-128 | writing the record of {a, b} changes the two cells of that pair and no other cell |
| Views.Matrix | cogs/relationships.py:191-203 | the nested loops build one row per name and one cell per name, cell (i, j) being the cell of names i and j |
| Views.Without | cogs/relationships.py:238 | the other characters are exactly the characters different from the name |
| Views.OutgoingTo | cogs/relationships.py:240-245 | the entry for one other character: its directed record under `str((name, other))`, or None; no contract of its own, `OutgoingForComplete` states what the list holds |
| Views.OutgoingList | cogs/relationships.py:239-245 | one entry per other character, in order, holding its outgoing record or None |
| Views.OutgoingFor | cogs/relationships.py:237-245 | the list built over the other characters in dictionary order; no contract of its own, `OutgoingForComplete` states that every other character appears once with its record or None |
| Views.OutgoingForComplete | cogs/relationships.py:237-245 | every other character appears exactly once, paired with its outgoing record or None |
| Views.EdgesIn | cogs/relationships.py:264-270 | the edges the all-relationships loop collects, keys that do not parse skipped; no contract of its own, `EdgesInMembers` states it is sound and complete |
| Views.EdgesInMembers | cogs/relationships.py:264-270 | every listed edge is a stored relationship read back from its key, and every stored relationship whose key parses is listed |
| Views.OutgoingScore | cogs/relationships.py:253 | the corrected sort key of the detail view: the value, or 0 for an entry without a record; no contract of its own, `SortOutgoingProps` states the order it gives |
| Views.EdgeValue | cogs/relationships.py:272 | `key=lambda x: x[2]["value"]` of the all-relationships sort; no contract of its own, `SortDescProps` and `EdgesInMembers` are stated with it |
| Views.PartnersIn | cog/Relationships.py:192-204 | the partners the per-character loop collects, keys that do not parse skipped; no contract of its own, `PartnersInMembers` states that they are exactly the other names of the keys holding the character |
| Views.PartnerList | cog/Relationships.py:209-211 | those partners sorted by descending value; no contract of its own, `PartnerListProps` states permutation, order and membership |
| Views.PartnerValue | cog/Relationships.py:210 | `key=lambda x: x[1]["value"]` of the per-character sort (also Cog.py:173); no contract of its own, `PartnerListProps` states the order it gives |
| Views.PartnerListProps | cog/Relationships.py:192-213 | the shown list is a permutation of the collected partners, in descending order of value; it holds the other name of every key naming the character, and nothing else |
| Views.PartnersInMembers | cog/Relationships.py:192-203 | the partners collected are exactly the other names of the parseable keys naming the character, with their records |
| Text.IsSpace | cogs/relationships.py:74 | the characters `str.isspace()` accepts, which `strip()` removes; no contract of its own, `TrimShape` and `TrimEnds` are stated with it |
| Text.Trim | cogs/relationships.py:74 | `strip()` never lengthens a name and strips an empty one to empty; its shape is in `TrimShape` and `TrimEnds` |
| Text.TrimShape | cogs/relationships.py:74 | `strip()` removes a whitespace prefix and a whitespace suffix and nothing else |
| Text.TrimEnds | cogs/relationships.py:74 | a stripped name neither starts nor ends with whitespace |
| Text.TrimIdempotent | cog/Relationships.py:31 | stripping twice is stripping once |
| Text.TrimEmpty | cogs/relationships.py:74-75 | a name strips to nothing exactly when it is all whitespace |
| Text.Less | cogs/relationships.py:133 | `<` on str, by code point with a proper prefix first, the order `sorted(characters)` uses; no contract of its own, `LessTotal` and `SortNames` state its properties |
| Text.LessTotal | Cog.py:75 | two different names are ordered one way or the other, never both |
| Text.IsSubstring | Cog.py:53 | `name in rel_key` on two strings; no contract of its own, `SubstringCascadeFrame` and `PlainNameInKey` are stated with it |
| Text.SortNames | cogs/relationships.py:182 | `sorted` on the character names is strictly sorted and holds exactly those names |
| Text.SortedUnique | cogs/relationships.py:182 | a set of names has only one strictly sorted listing |
| Text.ListingSize | cogs/relationships.py:145 | a listing of the dictionary's keys is as long as the dictionary |

## Left out

- Discord: the embeds, colours, footers, the legend and the reply texts. A handler's outcome is a `Result`: the data it shows, a refusal it sends, or `UnparseableKey`, an uncaught exception after which nothing is sent.
- `save_data` and `load_data` (JSON files through `os` and `json`). The two dictionaries are plain fields, and the persistence calls are not modelled.
- The text layout of the table: the `[:8]` and `[:14]` truncation and the padding. A table is its names and its cells.
- The bot set-up in main.py, the cog loading and the owner check. The import debugging and the `DummySystem` fallback of `cogs/relationships.py`. The missing `RelationshipSystem` import of `Cog.py` (line 9), which would make that cog fail at start-up.
- Dictionary order: maps have no order, so the roll loops and the detail lists take the insertion order of the keys as the parameters `order` and `keyOrder`.
- Keys: one fixed encoding, with the quote and the backslash escaped by a backslash. Like Python's `repr`, it doubles a backslash and writes a name with a double quote, or with both kinds of quote, the same way. It differs from Python's `str` of a tuple in two cases only. Python writes a name that holds a single quote and no double quote in double quotes, unescaped, where the model uses single quotes and `\'`. Python also escapes unprintable characters, which the model keeps as they are.
- Parsing: `ast.literal_eval` and `eval` are modelled only on keys in this format. Any other text is a key that does not parse. The model does not cover a key that evaluates to something other than a pair of strings. That includes a plain string, whose `in` test would be a substring test, and a tuple of another length, where `chars[1]` raises or extra elements are ignored.
- DirectedRevision.RerollRelationship: the handler ends at line 307, before writing anything back and without an `else` branch. So the model never changes the store. It returns `Adjust`, which is None when neither branch binds a value.
- `cog/Relationships.py` ends at line 216, inside the branch without a name of its detail command. Neither branch reaches a `ctx.send`: the branch with a name stops at line 213, after setting `embed.description`. The model's `PartnerView` is the description that branch builds, and the branch without a name gets the reply `NoReply`. The file has no reroll command.
- DirectedRevision.RelationshipCog.ShowDetailedRelationships: in the mixed case the model uses the corrected order (see Findings), where the source raises TypeError.
- EarliestRevision.RelationshipCog.ShowDetailedRelationships: the name is not stripped, as in the source. The model takes "no name" to be either a missing argument or an empty one, because both are falsy in Python.
- Randomness, the clock and the user id come in as parameters.

## Findings

| source | as written | input that shows it | evidently intended | confidence | as-written member | corrected member |
|---|---|---|---|---|---|---|
| cogs/relationships.py:253 | the sort key is an int for a character with a record and the tuple `(0, name)` for one without | a name with one outgoing record and one other character without one: `sorted` compares `5` with `(0, 'B')` and raises TypeError | descending by value, characters without a record last (key `x[1]["value"] if x[1] else 0`) | not executed | DirectedRevision.MixedOutgoingRaises | DirectedRevision.SortOutgoingProps |
