/** When text can, and when it cannot, take part in spelling a placeholder. */
module Interference {
  import opened Placeholders
  import opened Sequences
  import opened Wrappers

  /** `u` spells a placeholder at its start, or is itself the start of one: appended
      text decides whether a scanner would match here. */
  ghost predicate Live(u: string) {
    exists p: Placeholder :: p.Valid() && (p.Text() <= u || u <= p.Text())
  }

  /** No placeholder starts inside `w`, whatever is written after it. */
  ghost predicate Inert(w: string) {
    forall i :: 0 <= i < |w| ==> !Live(w[i..])
  }

  /** `Live` as a check on the characters alone, which a caller can run. */
  predicate CanBegin(u: string) {
    if |u| <= |OPEN| then u <= OPEN
    else OPEN <= u && CanContinue(u[|OPEN|..])
  }

  /** After the opening: a name that may go on, or one that is properly followed. */
  predicate CanContinue(rest: string) {
    var n := IdentLength(rest);
    && (rest != "" ==> IdentStart(rest[0]))
    && (n == |rest| || rest[n] == '}' || rest[n..] == ":" || ":-" <= rest[n..])
  }

  /** After a name, a closing brace or a default can follow. */
  lemma NameContinues(name: string, tail: string) returns (p: Placeholder)
    requires tail == "" || tail[0] == '}' || tail == ":"
    requires name != "" && IdentStart(name[0]) && forall i :: 0 <= i < |name| ==> IdentChar(name[i])
    ensures p.Valid() && (p.Rest() <= name + tail || name + tail <= p.Rest())
  {
    if tail == "" {
      p := Placeholder(name, None);
      assert p.Rest() == name + tail + "}";
    } else if tail[0] == '}' {
      p := Placeholder(name, None);
      assert tail == "}" + tail[1..];
      RestWithout(name, tail[1..]);
    } else {
      p := Placeholder(name, Some(""));
      assert p.Rest() == name + tail + "-}";
    }
  }

  lemma DefaultContinues(name: string, d: string) returns (p: Placeholder)
    requires name != "" && IdentStart(name[0]) && forall i :: 0 <= i < |name| ==> IdentChar(name[i])
    ensures p.Valid() && (p.Rest() <= name + ":-" + d || name + ":-" + d <= p.Rest())
  {
    var value, after := SplitAtBrace(d);
    p := Placeholder(name, Some(value));
    RestWithDefault(name, value, after);
  }

  lemma ContinuationExists(rest: string) returns (p: Placeholder)
    requires CanContinue(rest)
    ensures p.Valid() && (p.Rest() <= rest || rest <= p.Rest())
  {
    var n := IdentLength(rest);
    var name, tail := rest[..n], rest[n..];
    assert rest == name + tail;
    if rest == "" {
      p := Placeholder("a", None);
    } else if tail == "" || tail[0] == '}' || tail == ":" {
      p := NameContinues(name, tail);
    } else {
      p := DefaultContinues(name, tail[2..]);
      assert tail == ":-" + tail[2..];
      Reassociate(name, ":-", tail[2..]);
    }
  }

  lemma ContinuationSound(rest: string, p: Placeholder)
    requires p.Valid() && (p.Rest() <= rest || rest <= p.Rest())
    ensures CanContinue(rest)
  {
    if p.Rest() <= rest {
      ReadComplete(p, rest[|p.Rest()|..]);
      assert rest == p.Rest() + rest[|p.Rest()|..];
    } else if |rest| <= |p.name| {
      assert rest == p.name[..|rest|];
      IdentLengthIs(rest, "");
      assert rest + "" == rest;
    } else {
      var after := rest[|p.name|..];
      assert rest == p.name + after;
      assert after <= p.Rest()[|p.name|..];
      IdentLengthIs(p.name, after);
      assert rest[0] == p.name[0];
    }
  }

  /** The executable check decides liveness. */
  lemma CanBeginIffLive(u: string)
    ensures CanBegin(u) <==> Live(u)
  {
    if CanBegin(u) {
      if |u| <= |OPEN| {
        var p := Placeholder("a", None);
        assert u <= OPEN <= p.Text();
        assert p.Valid();
      } else {
        var p := ContinuationExists(u[|OPEN|..]);
        assert u == OPEN + u[|OPEN|..];
        assert p.Text() <= u || u <= p.Text();
      }
    }
    if Live(u) {
      var p: Placeholder :| p.Valid() && (p.Text() <= u || u <= p.Text());
      if |u| <= |OPEN| {
        assert OPEN == p.Text()[..|OPEN|];
      } else {
        assert OPEN == p.Text()[..|OPEN|] == u[..|OPEN|];
        assert p.Text()[|OPEN|..] == p.Rest();
        ContinuationSound(u[|OPEN|..], p);
      }
    }
  }

  // ---------------------------------------------------------------- inert text

  lemma LiveStartsWithDollar(u: string)
    requires Live(u) && u != ""
    ensures u[0] == '$'
  {
    var p: Placeholder :| p.Valid() && (p.Text() <= u || u <= p.Text());
    assert p.Text()[0] == '$';
  }

  lemma DollarFreeIsInert(w: string)
    requires '$' !in w
    ensures Inert(w)
  {
    forall i | 0 <= i < |w|
      ensures !Live(w[i..])
    {
      assert w[i..][0] == w[i];
      if Live(w[i..]) {
        LiveStartsWithDollar(w[i..]);
      }
    }
  }

  lemma LiveShrinks(u: string, v: string)
    requires Live(u + v)
    ensures Live(u)
  {
  }

  lemma InertConcat(w: string, v: string)
    requires Inert(w) && Inert(v)
    ensures Inert(w + v)
  {
    forall i | 0 <= i < |w + v|
      ensures !Live((w + v)[i..])
    {
      if i < |w| {
        assert (w + v)[i..] == w[i..] + v;
        if Live(w[i..] + v) {
          LiveShrinks(w[i..], v);
        }
      } else {
        assert (w + v)[i..] == v[i - |w|..];
      }
    }
  }

  lemma InertSuffix(w: string, k: nat)
    requires Inert(w) && k <= |w|
    ensures Inert(w[k..])
  {
  }

  /** No placeholder is spelled at a position inside inert text. */
  lemma NoMatchInInert(w: string, tail: string, p: Placeholder)
    requires Inert(w) && w != "" && p.Valid()
    ensures !(p.Text() <= w + tail)
  {
    if p.Text() <= w + tail {
      Comparable(p.Text(), w, w + tail);
      assert w[0..] == w;
      assert Live(w[0..]);
    }
  }

  lemma {:induction false} InertHasNoMatches(w: string)
    requires Inert(w)
    ensures Matches(w) == []
  {
    if w != "" {
      assert w + "" == w;
      if MatchAt(w).Some? {
        MatchIffSpelled(w, MatchAt(w).value);
        NoMatchInInert(w, "", MatchAt(w).value);
      }
      InertSuffix(w, 1);
      InertHasNoMatches(w[1..]);
    }
  }
}
