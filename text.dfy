/** Strings as the bot's handlers see them: Python's whitespace stripping,
    Python's code-point ordering of strings (used by sorted()), the `in`
    substring test, and sorting a set of names. */
module Text {

  /** Duplicate-free sequences. */
  ghost predicate NoDup<T>(s: seq<T>) {
    forall p, q :: 0 <= p < q < |s| ==> s[p] != s[q]
  }

  /** `s` lists the members of `S`, each once: how a dictionary's keys come
      out of `list(d)`. */
  ghost predicate IsListing<T(!new)>(s: seq<T>, S: set<T>) {
    NoDup(s) && forall x :: x in s <==> x in S
  }

  /** A listing is as long as the set has members. */
  lemma {:induction false} ListingSize<T(!new)>(s: seq<T>, S: set<T>)
    requires IsListing(s, S)
    ensures |s| == |S|
    decreases |s|
  {
    if s != [] {
      var init, last := s[..|s| - 1], s[|s| - 1];
      assert s == init + [last];
      forall p | 0 <= p < |init| ensures init[p] != last {
        assert init[p] == s[p];
      }
      assert NoDup(init) by {
        forall p, q | 0 <= p < q < |init| ensures init[p] != init[q] {
          assert init[p] == s[p] && init[q] == s[q];
        }
      }
      ListingSize(init, S - {last});
    } else {
      assert forall x :: x !in S;
      assert S == {};
    }
  }

  lemma {:induction false} NoDupConcat<T>(s: seq<T>, t: seq<T>)
    requires NoDup(s) && NoDup(t)
    requires forall x :: x in s ==> x !in t
    ensures NoDup(s + t)
  {
    forall p, q | 0 <= p < q < |s + t|
      ensures (s + t)[p] != (s + t)[q]
    {
      if q < |s| {
        assert (s + t)[p] == s[p] && (s + t)[q] == s[q];
      } else if p < |s| {
        assert (s + t)[p] == s[p] && (s + t)[q] == t[q - |s|];
        assert s[p] in s && t[q - |s|] in t;
      } else {
        assert (s + t)[p] == t[p - |s|] && (s + t)[q] == t[q - |s|];
      }
    }
  }

  /** The characters Python's str.isspace() accepts, so the ones str.strip() removes. */
  predicate IsSpace(c: char) {
    || c == ' ' || c == '\t' || c == '\n' || c == '\r'
    || c == '\U{0B}' || c == '\U{0C}'
    || ('\U{1C}' <= c <= '\U{1F}')
    || c == '\U{85}' || c == '\U{A0}' || c == '\U{1680}'
    || ('\U{2000}' <= c <= '\U{200A}')
    || c == '\U{2028}' || c == '\U{2029}' || c == '\U{202F}'
    || c == '\U{205F}' || c == '\U{3000}'
  }

  function TrimStart(s: string): (r: string)
    ensures |r| <= |s|
    decreases |s|
  {
    if s != [] && IsSpace(s[0]) then TrimStart(s[1..]) else s
  }

  function TrimEnd(s: string): (r: string)
    ensures |r| <= |s|
    decreases |s|
  {
    if s != [] && IsSpace(s[|s| - 1]) then TrimEnd(s[..|s| - 1]) else s
  }

  /** Python's `s.strip()` with no argument. */
  function Trim(s: string): (r: string)
    ensures |r| <= |s|
    ensures s == [] ==> r == []
  {
    TrimEnd(TrimStart(s))
  }

  /** Every character of `s` is whitespace. */
  predicate AllSpace(s: string) {
    forall k :: 0 <= k < |s| ==> IsSpace(s[k])
  }

  /** The number of whitespace characters `s` starts with. */
  function LeadingSpaces(s: string): (n: nat)
    ensures n <= |s|
    decreases |s|
  {
    if s != [] && IsSpace(s[0]) then 1 + LeadingSpaces(s[1..]) else 0
  }

  /** The length of `s` without the whitespace it ends with. */
  function TrailingStart(s: string): (n: nat)
    ensures n <= |s|
    decreases |s|
  {
    if s != [] && IsSpace(s[|s| - 1]) then TrailingStart(s[..|s| - 1]) else |s|
  }

  /** lstrip() drops exactly the leading whitespace. */
  lemma {:induction false} TrimStartShape(s: string)
    ensures TrimStart(s) == s[LeadingSpaces(s)..]
    ensures forall k :: 0 <= k < LeadingSpaces(s) ==> IsSpace(s[k])
    ensures LeadingSpaces(s) < |s| ==> !IsSpace(s[LeadingSpaces(s)])
    decreases |s|
  {
    if s != [] && IsSpace(s[0]) {
      var n := LeadingSpaces(s[1..]);
      TrimStartShape(s[1..]);
      assert s[1..][n..] == s[n + 1..];
      forall k | 0 < k < n + 1 ensures IsSpace(s[k]) {
        assert s[k] == s[1..][k - 1];
      }
      if n + 1 < |s| {
        assert s[n + 1] == s[1..][n];
      }
    }
  }

  /** rstrip() drops exactly the trailing whitespace. */
  lemma {:induction false} TrimEndShape(s: string)
    ensures TrimEnd(s) == s[..TrailingStart(s)]
    ensures forall k :: TrailingStart(s) <= k < |s| ==> IsSpace(s[k])
    ensures TrailingStart(s) > 0 ==> !IsSpace(s[TrailingStart(s) - 1])
    decreases |s|
  {
    if s != [] && IsSpace(s[|s| - 1]) {
      var init := s[..|s| - 1];
      var n := TrailingStart(init);
      TrimEndShape(init);
      assert init[..n] == s[..n];
      forall k | n <= k < |s| - 1 ensures IsSpace(s[k]) {
        assert s[k] == init[k];
      }
      if n > 0 {
        assert s[n - 1] == init[n - 1];
      }
    } else {
      assert s[..|s|] == s;
    }
  }

  /** strip() removes a whitespace prefix and a whitespace suffix and nothing
      else. */
  lemma {:induction false} TrimShape(s: string)
    ensures LeadingSpaces(s) + TrailingStart(s[LeadingSpaces(s)..]) <= |s|
    ensures Trim(s) == s[LeadingSpaces(s)..LeadingSpaces(s) + TrailingStart(s[LeadingSpaces(s)..])]
    ensures forall k :: 0 <= k < LeadingSpaces(s) ==> IsSpace(s[k])
    ensures forall k :: LeadingSpaces(s) + TrailingStart(s[LeadingSpaces(s)..]) <= k < |s| ==> IsSpace(s[k])
  {
    var i := LeadingSpaces(s);
    var t := s[i..];
    var n := TrailingStart(t);
    TrimStartShape(s);
    assert Trim(s) == s[i..i + n] by {
      TrimEndShape(t);
      assert t[..n] == s[i..i + n];
    }
    forall k | i + n <= k < |s| ensures IsSpace(s[k]) {
      TrimEndShape(t);
      assert s[k] == t[k - i];
    }
  }

  /** What strip() returns neither starts nor ends with whitespace. */
  lemma {:induction false} TrimEnds(s: string)
    ensures Trim(s) != [] ==> !IsSpace(Trim(s)[0]) && !IsSpace(Trim(s)[|Trim(s)| - 1])
  {
    var i := LeadingSpaces(s);
    var t := s[i..];
    TrimStartShape(s);
    TrimEndShape(t);
    var n := TrailingStart(t);
    if n > 0 {
      assert Trim(s) == t[..n];
      assert Trim(s)[0] == s[i];
      assert Trim(s)[n - 1] == t[n - 1];
    }
  }

  lemma {:induction false} TrimStartAllSpace(s: string)
    requires AllSpace(s)
    ensures TrimStart(s) == []
    decreases |s|
  {
    if s != [] {
      assert AllSpace(s[1..]) by {
        forall k | 0 <= k < |s[1..]| ensures IsSpace(s[1..][k]) {
          assert s[1..][k] == s[k + 1];
        }
      }
      TrimStartAllSpace(s[1..]);
    }
  }

  /** Stripping twice is stripping once. */
  lemma {:induction false} TrimIdempotent(s: string)
    ensures Trim(Trim(s)) == Trim(s)
  {
    TrimEnds(s);
    var t := Trim(s);
    assert TrimStart(t) == t;
    if t != [] {
      assert TrimEnd(t) == t;
    }
  }

  /** A string strips to nothing exactly when it is all whitespace. */
  lemma {:induction false} TrimEmpty(s: string)
    ensures Trim(s) == [] <==> AllSpace(s)
  {
    if AllSpace(s) {
      TrimStartAllSpace(s);
    }
    if Trim(s) == [] {
      TrimShape(s);
      forall k | 0 <= k < |s| ensures IsSpace(s[k]) {
      }
    }
  }

  /** Python's `<` on str: lexicographic by code point, a proper prefix first. */
  predicate Less(a: string, b: string)
    decreases |a|
  {
    if a == [] then b != []
    else if b == [] then false
    else if a[0] != b[0] then a[0] < b[0]
    else Less(a[1..], b[1..])
  }

  lemma {:induction false} LessIrreflexive(a: string)
    ensures !Less(a, a)
    decreases |a|
  {
    if a != [] { LessIrreflexive(a[1..]); }
  }

  lemma {:induction false} LessTransitive(a: string, b: string, c: string)
    requires Less(a, b) && Less(b, c)
    ensures Less(a, c)
    decreases |a|
  {
    if a != [] && b != [] && c != [] && a[0] == b[0] && b[0] == c[0] {
      LessTransitive(a[1..], b[1..], c[1..]);
    }
  }

  /** Any two different strings are ordered one way or the other, never both. */
  lemma {:induction false} LessTotal(a: string, b: string)
    ensures a != b <==> (Less(a, b) || Less(b, a))
    ensures !(Less(a, b) && Less(b, a))
    decreases |a|
  {
    if a == [] || b == [] {
      if a == [] && b == [] { } else { }
    } else if a[0] != b[0] {
    } else {
      LessTotal(a[1..], b[1..]);
      assert a == [a[0]] + a[1..] && b == [b[0]] + b[1..];
    }
  }

  ghost predicate StrictlySorted(s: seq<string>) {
    forall p, q :: 0 <= p < q < |s| ==> Less(s[p], s[q])
  }

  /** A set of names has only one strictly sorted listing, so "the sorted
      names" is well defined. */
  lemma {:induction false} SortedUnique(r1: seq<string>, r2: seq<string>)
    requires StrictlySorted(r1) && StrictlySorted(r2)
    requires forall x :: x in r1 <==> x in r2
    ensures r1 == r2
    decreases |r1|
  {
    if r1 == [] || r2 == [] {
      assert forall s: seq<string> {:trigger |s|} :: |s| > 0 ==> s[0] in s;
    } else {
      assert r1[0] in r2 && r2[0] in r1;
      if r1[0] != r2[0] {
        var p :| 0 <= p < |r2| && r2[p] == r1[0];
        var q :| 0 <= q < |r1| && r1[q] == r2[0];
        assert Less(r2[0], r1[0]) by { assert p > 0; }
        assert Less(r1[0], r2[0]) by { assert q > 0; }
        LessTotal(r1[0], r2[0]);
      }
      forall x ensures x in r1[1..] <==> x in r2[1..] {
        if x in r1[1..] {
          var p :| 1 <= p < |r1| && r1[p] == x;
          assert Less(r1[0], x);
          LessTotal(r1[0], x);
          assert x in r2 && x != r2[0];
        }
        if x in r2[1..] {
          var p :| 1 <= p < |r2| && r2[p] == x;
          assert Less(r2[0], x);
          LessTotal(r2[0], x);
          assert x in r1 && x != r1[0];
        }
      }
      SortedUnique(r1[1..], r2[1..]);
      assert r1 == [r1[0]] + r1[1..] && r2 == [r2[0]] + r2[1..];
    }
  }

  /** Python's `sorted(names)` on a collection of distinct strings. */
  method SortNames(names: set<string>) returns (r: seq<string>)
    ensures StrictlySorted(r)
    ensures forall x :: x in r <==> x in names
    ensures |r| == |names|
  {
    r := [];
    var rest := names;
    while rest != {}
      invariant StrictlySorted(r)
      invariant forall x :: x in names <==> x in r || x in rest
      invariant forall x :: x in r ==> x !in rest
      invariant forall x, y :: x in r && y in rest ==> Less(x, y)
      invariant |r| + |rest| == |names|
      decreases |rest|
    {
      var m :| m in rest;
      var others := rest - {m};
      while others != {}
        invariant others <= rest && m in rest && m !in others
        invariant forall y :: y in rest && y !in others && y != m ==> Less(m, y)
        decreases |others|
      {
        var x :| x in others;
        if Less(x, m) {
          forall y | y in rest && y !in others - {x} && y != x && y != m
            ensures Less(x, y)
          {
            LessTransitive(x, m, y);
          }
          LessTotal(x, m);
          m := x;
        } else {
          LessTotal(x, m);
        }
        others := others - {x};
      }
      r := r + [m];
      rest := rest - {m};
    }
  }

  /** `name in key` on two Python strings: `needle` occurs in `hay` at `i`. */
  predicate OccursAt(needle: string, hay: string, i: int) {
    0 <= i && i + |needle| <= |hay| && hay[i..i + |needle|] == needle
  }

  predicate IsSubstring(needle: string, hay: string) {
    exists i | 0 <= i <= |hay| - |needle| :: OccursAt(needle, hay, i)
  }

  /** A string occurs in itself. */
  lemma {:induction false} SubstringSelf(s: string)
    ensures IsSubstring(s, s)
  {
    assert s[0..|s|] == s;
    assert OccursAt(s, s, 0);
  }

  /** A string that occurs in `x` occurs in `x` extended on either side. */
  lemma {:induction false} SubstringExtend(needle: string, x: string, y: string)
    requires IsSubstring(needle, x)
    ensures IsSubstring(needle, x + y)
    ensures IsSubstring(needle, y + x)
  {
    var i :| 0 <= i <= |x| - |needle| && OccursAt(needle, x, i);
    assert (x + y)[i..i + |needle|] == x[i..i + |needle|];
    assert OccursAt(needle, x + y, i);
    assert (y + x)[|y| + i..|y| + i + |needle|] == x[i..i + |needle|];
    assert OccursAt(needle, y + x, |y| + i);
  }
}
