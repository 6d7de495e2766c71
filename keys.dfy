/** Relationship keys. The store keys its relationships by the text of a
    Python tuple of two names, `str((a, b))`, and reads a key back with
    `ast.literal_eval` (or `eval`). The model fixes one injective encoding
    and a strict parser for exactly that format. The encoding agrees with
    Python's except for a name holding a single quote but no double quote
    (Python then switches to double quotes) and a name holding an
    unprintable character (Python escapes it). */
module Keys {
  import opened Text

  datatype Option<+T> = None | Some(value: T)

  /** A character that the encoding has to escape with a backslash. */
  predicate IsSpecial(c: char) {
    c == '\\' || c == '\''
  }

  /** A name with nothing to escape: the encoding writes it as `'name'`. */
  predicate IsPlain(name: string) {
    forall k :: 0 <= k < |name| ==> !IsSpecial(name[k])
  }

  function EscapeChar(c: char): string {
    if IsSpecial(c) then ['\\', c] else [c]
  }

  function Escape(s: string): string {
    if s == [] then [] else EscapeChar(s[0]) + Escape(s[1..])
  }

  /** A name as a single-quoted Python string literal. */
  function Quote(s: string): string {
    "'" + Escape(s) + "'"
  }

  /** `str((a, b))`. */
  function Encode(a: string, b: string): (k: string)
  {
    "(" + Quote(a) + ", " + Quote(b) + ")"
  }

  /** Reads the body of a quoted literal up to its closing quote; returns the
      unescaped body and what follows the closing quote. */
  function ReadBody(k: string): Option<(string, string)>
    decreases |k|
  {
    if k == [] then None
    else if k[0] == '\'' then Some(([], k[1..]))
    else if k[0] == '\\' then
      if |k| < 2 || !IsSpecial(k[1]) then None
      else match ReadBody(k[2..])
        case None => None
        case Some(p) => Some(([k[1]] + p.0, p.1))
    else match ReadBody(k[1..])
      case None => None
      case Some(p) => Some(([k[0]] + p.0, p.1))
  }

  function ReadQuoted(k: string): Option<(string, string)> {
    if k != [] && k[0] == '\'' then ReadBody(k[1..]) else None
  }

  /** `ast.literal_eval(key)` on relationship keys: the elements of the tuple,
      or None where Python would raise ValueError or SyntaxError. */
  function Parse(k: string): (r: Option<seq<string>>)
    ensures r.Some? ==> |r.value| == 2 && k != [] && k[0] == '('
  {
    if k == [] || k[0] != '(' then None else ParseAfterOpen(k[1..])
  }

  function ParseAfterOpen(t: string): Option<seq<string>> {
    match ReadQuoted(t)
    case None => None
    case Some(first) => ParseAfterFirst(first.0, first.1)
  }

  function ParseAfterFirst(a: string, r: string): Option<seq<string>> {
    if |r| < 2 || r[..2] != ", " then None
    else match ReadQuoted(r[2..])
      case None => None
      case Some(second) => if second.1 == ")" then Some([a, second.0]) else None
  }

  lemma {:induction false} ReadBodyEscape(s: string, rest: string)
    ensures ReadBody(Escape(s) + "'" + rest) == Some((s, rest))
    decreases |s|
  {
    var k := Escape(s) + "'" + rest;
    if s == [] {
      assert k == "'" + rest;
    } else {
      ReadBodyEscape(s[1..], rest);
      var tail := Escape(s[1..]) + "'" + rest;
      assert k == EscapeChar(s[0]) + tail;
      if IsSpecial(s[0]) {
        assert k[0] == '\\' && k[1] == s[0] && k[2..] == tail;
      } else {
        assert k[0] == s[0] && k[1..] == tail;
      }
      assert s == [s[0]] + s[1..];
    }
  }

  lemma {:induction false} ReadBodyInverse(k: string)
    requires ReadBody(k).Some?
    ensures k == Escape(ReadBody(k).value.0) + "'" + ReadBody(k).value.1
    decreases |k|
  {
    var p := ReadBody(k).value;
    if k[0] == '\'' {
      assert p.0 == [];
    } else if k[0] == '\\' {
      ReadBodyInverse(k[2..]);
      var q := ReadBody(k[2..]).value;
      assert p.0 == [k[1]] + q.0;
      assert p.0[1..] == q.0;
      assert Escape(p.0) == ['\\', k[1]] + Escape(q.0);
      assert k == k[..2] + k[2..];
    } else {
      ReadBodyInverse(k[1..]);
      var q := ReadBody(k[1..]).value;
      assert p.0 == [k[0]] + q.0;
      assert p.0[1..] == q.0;
      assert Escape(p.0) == [k[0]] + Escape(q.0);
      assert k == [k[0]] + k[1..];
    }
  }

  /** literal_eval(str((a, b))) == (a, b): every key the bot writes reads
      back as the pair it was made from. */
  lemma {:induction false} ParseEncode(a: string, b: string)
    ensures Parse(Encode(a, b)) == Some([a, b])
  {
    var k := Encode(a, b);
    var rest1 := ", " + Quote(b) + ")";
    assert k[1..] == "'" + (Escape(a) + "'" + rest1);
    ReadBodyEscape(a, rest1);
    assert ReadQuoted(k[1..]) == Some((a, rest1));
    assert rest1[..2] == ", ";
    assert rest1[2..] == "'" + (Escape(b) + "'" + ")");
    ReadBodyEscape(b, ")");
  }

  lemma {:induction false} ReadQuotedInverse(t: string)
    requires ReadQuoted(t).Some?
    ensures t == Quote(ReadQuoted(t).value.0) + ReadQuoted(t).value.1
  {
    ReadBodyInverse(t[1..]);
    assert t == "'" + t[1..];
  }

  lemma {:induction false} AfterFirstInverse(a: string, r: string)
    requires ParseAfterFirst(a, r).Some?
    ensures var v := ParseAfterFirst(a, r).value; |v| == 2 && v[0] == a && r == ", " + Quote(v[1]) + ")"
  {
    ReadQuotedInverse(r[2..]);
    assert r == r[..2] + r[2..];
  }

  lemma {:induction false} AfterOpenInverse(t: string)
    requires ParseAfterOpen(t).Some?
    ensures var v := ParseAfterOpen(t).value; |v| == 2 && t == Quote(v[0]) + ", " + Quote(v[1]) + ")"
  {
    var first := ReadQuoted(t).value;
    ReadQuotedInverse(t);
    AfterFirstInverse(first.0, first.1);
  }

  /** ... and every key that parses is the encoding of what it parses to, so
      a parsed key determines the key. */
  lemma {:induction false} EncodeParse(k: string)
    requires Parse(k).Some?
    ensures |Parse(k).value| == 2 && k == Encode(Parse(k).value[0], Parse(k).value[1])
  {
    AfterOpenInverse(k[1..]);
    assert k == "(" + k[1..];
  }

  /** `chars = eval(key)` followed by `chars[0]` and `chars[1]`: the pair a
      key reads back as, or None where Python would raise. */
  function ParsePair(k: string): (r: Option<(string, string)>)
    ensures r.Some? <==> Parse(k).Some?
    ensures r.Some? ==> Parse(k).value == [r.value.0, r.value.1]
  {
    match Parse(k)
    case Some(v) => if |v| == 2 then Some((v[0], v[1])) else None
    case None => None
  }

  /** A key reads back as a pair exactly when it parses, and then as the
      pair it encodes. */
  lemma {:induction false} ParsePairSpec(k: string)
    ensures ParsePair(k).Some? <==> Parse(k).Some?
    ensures ParsePair(k).Some? ==> k == Encode(ParsePair(k).value.0, ParsePair(k).value.1)
  {
    if Parse(k).Some? {
      EncodeParse(k);
    }
  }

  lemma {:induction false} ParsePairEncode(a: string, b: string)
    ensures ParsePair(Encode(a, b)) == Some((a, b))
  {
    ParseEncode(a, b);
  }

  /** Different pairs get different keys. */
  lemma {:induction false} EncodeInjective(a: string, b: string, c: string, d: string)
    requires Encode(a, b) == Encode(c, d)
    ensures a == c && b == d
  {
    ParseEncode(a, b);
    ParseEncode(c, d);
  }

  /** Keys agree exactly when their pairs do. */
  lemma {:induction false} EncodeEqual(a: string, b: string, c: string, d: string)
    ensures Encode(a, b) == Encode(c, d) <==> a == c && b == d
  {
    ParseEncode(a, b);
    ParseEncode(c, d);
  }

  /** For plain names the key is literally `"('" + a + "', '" + b + "')"`. */
  lemma {:induction false} EscapePlain(s: string)
    requires IsPlain(s)
    ensures Escape(s) == s
    decreases |s|
  {
    if s != [] {
      assert IsPlain(s[1..]) by {
        forall k | 0 <= k < |s[1..]| ensures !IsSpecial(s[1..][k]) {
          assert s[1..][k] == s[k + 1];
        }
      }
      EscapePlain(s[1..]);
      assert !IsSpecial(s[0]);
      assert s == [s[0]] + s[1..];
    }
  }

  lemma {:induction false} EncodePlain(a: string, b: string)
    requires IsPlain(a) && IsPlain(b)
    ensures Encode(a, b) == "('" + a + "', '" + b + "')"
  {
    EscapePlain(a);
    EscapePlain(b);
  }

  /** `tuple(sorted([a, b]))`. */
  function SortedPair(a: string, b: string): (string, string) {
    if Less(b, a) then (b, a) else (a, b)
  }

  /** `str(tuple(sorted([a, b])))`: the key of the unordered pair. */
  function SortedKey(a: string, b: string): (k: string)
    ensures k == Encode(a, b) || k == Encode(b, a)
  {
    Encode(SortedPair(a, b).0, SortedPair(a, b).1)
  }

  /** Sorting a pair forgets only its order. */
  lemma {:induction false} SortedPairInjective(a: string, b: string, c: string, d: string)
    ensures SortedPair(a, b) == SortedPair(c, d) <==> (a == c && b == d) || (a == d && b == c)
  {
    LessTotal(a, b);
    LessTotal(c, d);
  }

  /** Both orders of a pair share one key. */
  lemma {:induction false} SortedKeySymmetric(a: string, b: string)
    ensures SortedKey(a, b) == SortedKey(b, a)
  {
    LessTotal(a, b);
  }

  /** The unordered key parses to the two names, smaller first. */
  lemma {:induction false} SortedKeyParse(a: string, b: string)
    ensures var p := Parse(SortedKey(a, b));
      && p.Some? && |p.value| == 2
      && ((p.value[0] == a && p.value[1] == b) || (p.value[0] == b && p.value[1] == a))
      && (p.value[0] == p.value[1] || Less(p.value[0], p.value[1]))
  {
    LessTotal(a, b);
    if Less(b, a) { ParseEncode(b, a); } else { ParseEncode(a, b); }
  }

  /** Two unordered keys agree exactly when they are keys of the same pair. */
  lemma {:induction false} SortedKeyInjective(a: string, b: string, c: string, d: string)
    ensures SortedKey(a, b) == SortedKey(c, d) <==> (a == c && b == d) || (a == d && b == c)
  {
    var p, q := SortedPair(a, b), SortedPair(c, d);
    if SortedKey(a, b) == SortedKey(c, d) {
      EncodeInjective(p.0, p.1, q.0, q.1);
    }
    SortedPairInjective(a, b, c, d);
  }

  /** `name in ast.literal_eval(key)` for a key that parses; keys that do not
      parse mention nobody (the handlers skip them). */
  predicate Mentions(k: string, name: string) {
    match Parse(k)
    case Some(names) => name in names
    case None => false
  }

  /** The key of a pair mentions exactly its two names. */
  lemma {:induction false} MentionsEncode(a: string, b: string, name: string)
    ensures Mentions(Encode(a, b), name) <==> name == a || name == b
  {
    ParseEncode(a, b);
  }

  lemma {:induction false} MentionsSortedKey(a: string, b: string, name: string)
    ensures Mentions(SortedKey(a, b), name) <==> name == a || name == b
  {
    SortedKeyParse(a, b);
  }
}
