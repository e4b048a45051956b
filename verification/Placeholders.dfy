/** The placeholder syntax of mortar strings, and the leftmost scanner for it.

    The pattern is `\$\{variable\.([a-zA-Z_][a-zA-Z0-9_]*)(?::-([^}]*))?\}`. */
module Placeholders {
  import opened Sequences
  import opened Wrappers

  const OPEN := "${variable."

  predicate IdentStart(c: char) {
    'a' <= c <= 'z' || 'A' <= c <= 'Z' || c == '_'
  }

  predicate IdentChar(c: char) {
    IdentStart(c) || '0' <= c <= '9'
  }

  datatype Placeholder = Placeholder(name: string, default: Option<string>) {
    predicate Valid() {
      && name != "" && IdentStart(name[0])
      && (forall i :: 0 <= i < |name| ==> IdentChar(name[i]))
      && (default.Some? ==> '}' !in default.value)
    }

    /** What follows the opening in the user's spelling. */
    function Rest(): string {
      name + (if default.Some? then ":-" + default.value else "") + "}"
    }

    /** The full match, as the user spells it. */
    function Text(): string {
      OPEN + Rest()
    }
  }

  function IdentLength(s: string): (n: nat)
    ensures n <= |s|
    ensures forall i :: 0 <= i < n ==> IdentChar(s[i])
    ensures n < |s| ==> !IdentChar(s[n])
  {
    if s == "" || !IdentChar(s[0]) then 0 else 1 + IdentLength(s[1..])
  }

  function BraceIndex(s: string): (n: nat)
    ensures n <= |s|
    ensures forall i :: 0 <= i < n ==> s[i] != '}'
    ensures n < |s| ==> s[n] == '}'
  {
    if s == "" || s[0] == '}' then 0 else 1 + BraceIndex(s[1..])
  }

  /** Reads a name, an optional default and the closing brace. The identifier is taken
      as long as possible: what may follow it is not an identifier character, so a
      regular expression engine cannot do better by backtracking. */
  function ReadRest(rest: string): Option<Placeholder> {
    var n := IdentLength(rest);
    var tail := rest[n..];
    if n == 0 || !IdentStart(rest[0]) || tail == "" then None
    else if tail[0] == '}' then Some(Placeholder(rest[..n], Option.None))
    else if ":-" <= tail then
      var k := BraceIndex(tail[2..]);
      if k == |tail[2..]| then None else Some(Placeholder(rest[..n], Some(tail[2..][..k])))
    else None
  }

  /** The match of the pattern at the very start of `s`. */
  function MatchAt(s: string): (r: Option<Placeholder>)
    ensures r.Some? ==> r.value.Valid() && r.value.Text() <= s
  {
    if OPEN <= s then
      var rest := s[|OPEN|..];
      var r := ReadRest(rest);
      if r.Some? then
        ReadSound(rest);
        PrefixUnder(OPEN, r.value.Rest(), rest);
        assert s == OPEN + rest;
        r
      else None
    else None
  }

  /** All matches in `s`, leftmost first and non-overlapping. */
  function Matches(s: string): seq<Placeholder>
    decreases |s|
  {
    if s == "" then []
    else
      match MatchAt(s)
      case Some(p) => [p] + Matches(s[|p.Text()|..])
      case None => Matches(s[1..])
  }

  // ---------------------------------------------------------------- the scanner is the pattern

  lemma ReadSound(rest: string)
    requires ReadRest(rest).Some?
    ensures ReadRest(rest).value.Valid() && ReadRest(rest).value.Rest() <= rest
  {
  }

  lemma RestWithout(name: string, after: string)
    ensures Placeholder(name, None).Rest() <= name + ("}" + after)
  {
    assert Placeholder(name, None).Rest() + after == name + ("}" + after);
  }

  /** The text up to its first closing brace, and what follows that brace. */
  lemma SplitAtBrace(d: string) returns (value: string, after: string)
    ensures value == d[..BraceIndex(d)] && '}' !in value
    ensures if BraceIndex(d) == |d| then value == d else d == value + "}" + after
  {
    var k := BraceIndex(d);
    value, after := d[..k], if k == |d| then "" else d[k + 1..];
  }

  lemma RestWithDefault(name: string, value: string, after: string)
    ensures Placeholder(name, Some(value)).Rest() == name + ":-" + value + "}"
    ensures Placeholder(name, Some(value)).Rest() + after == name + ":-" + (value + "}" + after)
  {
  }

  lemma IdentLengthIs(name: string, tail: string)
    requires forall i :: 0 <= i < |name| ==> IdentChar(name[i])
    requires tail == "" || !IdentChar(tail[0])
    ensures IdentLength(name + tail) == |name|
  {
    assert forall i :: 0 <= i < |name| ==> (name + tail)[i] == name[i];
    assert tail != "" ==> (name + tail)[|name|] == tail[0];
  }

  lemma BraceIndexIs(d: string, tail: string)
    requires '}' !in d
    ensures BraceIndex(d + "}" + tail) == |d|
  {
    var s := d + "}" + tail;
    assert s[|d|] == '}';
    assert forall i :: 0 <= i < |d| ==> s[i] == d[i];
  }

  lemma ReadComplete(p: Placeholder, tail: string)
    requires p.Valid()
    ensures ReadRest(p.Rest() + tail) == Some(p)
  {
    var after := (if p.default.Some? then ":-" + p.default.value else "") + "}" + tail;
    var rest := p.Rest() + tail;
    assert rest == p.name + after;
    IdentLengthIs(p.name, after);
    assert rest[|p.name|..] == after && rest[..|p.name|] == p.name;
    assert rest[0] == p.name[0];
    if p.default.Some? {
      var d := p.default.value;
      assert after[2..] == d + "}" + tail;
      BraceIndexIs(d, tail);
      assert after[2..][..|d|] == d;
    }
  }

  lemma PrefixUnder(head: string, x: string, y: string)
    requires x <= y
    ensures head + x <= head + y
    ensures (head + y)[|head|..] == y
  {
  }

  lemma MatchComplete(s: string, p: Placeholder)
    requires p.Valid() && p.Text() <= s
    ensures MatchAt(s) == Some(p)
  {
    var tail := s[|p.Text()|..];
    assert s == p.Text() + tail;
    Reassociate(OPEN, p.Rest(), tail);
    PrefixUnder(OPEN, p.Rest() + tail, p.Rest() + tail);
    ReadComplete(p, tail);
  }

  /** The scanner finds `p` at the start of `s` exactly when `p` is a well-formed
      placeholder spelled there; in particular at most one is. */
  lemma MatchIffSpelled(s: string, p: Placeholder)
    ensures MatchAt(s) == Some(p) <==> p.Valid() && p.Text() <= s
  {
    if p.Valid() && p.Text() <= s {
      MatchComplete(s, p);
    }
  }

  // ---------------------------------------------------------------- the pattern, spelled out

  /** `[a-zA-Z_][a-zA-Z0-9_]*`. */
  ghost predicate IsName(name: string) {
    && name != ""
    && ('a' <= name[0] <= 'z' || 'A' <= name[0] <= 'Z' || name[0] == '_')
    && forall i :: 0 < i < |name| ==>
         'a' <= name[i] <= 'z' || 'A' <= name[i] <= 'Z' || '0' <= name[i] <= '9' || name[i] == '_'
  }

  lemma ValidIffWritten(p: Placeholder)
    ensures p.Valid() <==> IsName(p.name) && (p.default.Some? ==> '}' !in p.default.value)
  {
  }

  lemma TextIsWritten(p: Placeholder)
    ensures p.Text() == match p.default
                        case None => "${variable." + p.name + "}"
                        case Some(d) => "${variable." + p.name + ":-" + d + "}"
  {
    if p.default.Some? {
      var d := p.default.value;
      Reassociate(OPEN + p.name, ":-" + d, "}");
      Reassociate(OPEN + p.name, ":-", d);
      Reassociate(OPEN, p.name, ":-" + d + "}");
      assert OPEN + p.name + (":-" + d + "}") == OPEN + (p.name + (":-" + d) + "}");
    } else {
      assert p.name + "" == p.name;
    }
  }

  /** What the scanner matches, in the characters of the pattern: `${variable.`, a name, an
      optional default after `:-` that has no closing brace, and a closing brace. */
  lemma MatchIffWritten(s: string, p: Placeholder)
    ensures MatchAt(s) == Some(p) <==>
            && IsName(p.name)
            && match p.default
               case None => "${variable." + p.name + "}" <= s
               case Some(d) => '}' !in d && "${variable." + p.name + ":-" + d + "}" <= s
  {
    hide MatchAt, Placeholder.Rest, Placeholder.Text;
    MatchIffSpelled(s, p);
    ValidIffWritten(p);
    TextIsWritten(p);
  }

  /** Two prefixes of one string are prefixes of each other. */
  lemma Comparable(x: string, y: string, s: string)
    requires x <= s && y <= s
    ensures |x| <= |y| ==> x <= y
    ensures |y| <= |x| ==> y <= x
  {
  }

  /** No placeholder is a proper prefix of another. */
  lemma PrefixFree(p: Placeholder, q: Placeholder)
    requires p.Valid() && q.Valid()
    requires p.Text() <= q.Text()
    ensures p == q
  {
    MatchIffSpelled(q.Text(), p);
    MatchIffSpelled(q.Text(), q);
  }
}
