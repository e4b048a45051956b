/** Which values are safe to substitute: exactly the inert ones. */
module ValueSafety {
  import opened Interference
  import opened Placeholders
  import opened Sequences
  import opened Text
  import opened VariableResolver
  import opened Wrappers

  ghost predicate LoopAgrees(template: string, vars: Variables) {
    Rewrite(template, Matches(template), vars) == OnePass(template, vars)
  }

  /** A template that by itself neither spells ahead nor nests and whose placeholders all
      resolve, in which `v` is the value of `name` and whatever else is substituted is inert. */
  ghost predicate Uses(v: string, name: string, template: string, vars: Variables) {
    && !SpellsAhead(template) && !Nests(template)
    && Resolvable(template, vars)
    && name in vars && vars[name] == v
    && (forall p :: p in Matches(template) && p.name != name ==> Inert(Replacement(p, vars).value))
  }

  /** The rewriting loop treats `v` as a one-pass substitution would, in every use. */
  ghost predicate SafeValue(v: string) {
    forall name, template, vars :: Uses(v, name, template, vars) ==> LoopAgrees(template, vars)
  }

  /** Anything that is not inert has a last live position, with an inert remainder. */
  lemma {:induction false} LastLive(v: string) returns (i: nat)
    requires !Inert(v)
    ensures i < |v| && Live(v[i..]) && Inert(v[i + 1..])
    decreases |v|
  {
    assert v != "";
    assert v[0..] == v;
    if Inert(v[1..]) {
      forall k | 0 < k < |v|
        ensures !Live(v[k..])
      {
        assert v[k..] == v[1..][k - 1..];
      }
      i := 0;
    } else {
      var k := LastLive(v[1..]);
      i := k + 1;
      assert v[1..][k..] == v[i..] && v[1..][k + 1..] == v[i + 1..];
    }
  }

  /** Text that ends in a brace is live only because it already spells a placeholder. */
  lemma ClosedTextStaysLive(u: string, longer: string)
    requires u != "" && u[|u| - 1] == '}' && u <= longer
    requires Live(u)
    ensures Live(longer)
  {
  }

  /** A placeholder at the start of a text is calm inside if the text is. */
  lemma PrefixTextIsCalm(p: Placeholder, w: string)
    requires p.Valid() && p.Text() <= w && Inert(w[1..])
    ensures Inert(p.Text()[1..])
  {
    var f := p.Text();
    forall k | 0 <= k < |f[1..]|
      ensures !Live(f[1..][k..])
    {
      var u, longer := f[1..][k..], w[1..][k..];
      assert u == f[k + 1..] && longer == w[k + 1..] && u <= longer;
      assert u[|u| - 1] == f[|f| - 1] == '}';
      if Live(u) {
        ClosedTextStaysLive(u, longer);
      }
    }
  }

  /** Everything of a placeholder but its default and closing brace. */
  function Head(p: Placeholder): string {
    OPEN + p.name + if p.default.Some? then ":-" else ""
  }

  lemma HeadSpelling(p: Placeholder)
    ensures p.Text() == Head(p) + (if p.default.Some? then p.default.value else "") + "}"
  {
  }

  lemma HeadHasOneDollar(p: Placeholder)
    requires p.Valid()
    ensures '$' !in Head(p)[1..]
  {
  }

  lemma CompleteHead(w: string, q: Placeholder) returns (p: Placeholder, rest: string)
    requires q.Valid() && w != "" && w <= Head(q)
    ensures p.Valid() && p.Text() == w + rest && '$' !in rest
  {
    var h := Head(q);
    p := Placeholder(q.name, if q.default.Some? then Some("") else None);
    HeadSpelling(p);
    assert Head(p) == h && p.Text() == h + "}";
    rest := h[|w|..] + "}";
    assert h == w + h[|w|..];
    HeadHasOneDollar(q);
    assert h[|w|..] == h[1..][|w| - 1..];
  }

  lemma CompleteDefault(w: string, q: Placeholder) returns (p: Placeholder)
    requires q.Valid() && q.default.Some? && Head(q) <= w <= q.Text() && w != q.Text()
    ensures p.Valid() && p.Text() == w + "}"
  {
    var h, whole := Head(q), q.default.value;
    var d := w[|h|..];
    HeadSpelling(q);
    assert q.Text()[|h|..] == whole + "}";
    assert d <= whole + "}" && |d| <= |whole|;
    assert d == whole[..|d|];
    p := Placeholder(q.name, Some(d));
    HeadSpelling(p);
    assert w == h + d;
  }

  /** Text that is the start of a placeholder can be completed to one without a `$`. */
  lemma Complete(w: string) returns (p: Placeholder, rest: string)
    requires w != ""
    requires exists q: Placeholder :: q.Valid() && w <= q.Text()
    ensures p.Valid() && p.Text() == w + rest && '$' !in rest
  {
    var q: Placeholder :| q.Valid() && w <= q.Text();
    HeadSpelling(q);
    Comparable(w, Head(q), q.Text());
    if w == q.Text() {
      p, rest := q, "";
      assert w + rest == w;
    } else if w <= Head(q) {
      p, rest := CompleteHead(w, q);
    } else {
      p := CompleteDefault(w, q);
      rest := "}";
    }
  }

  lemma CompleteLive(w: string) returns (p: Placeholder, after: string, rest: string)
    requires w != "" && Live(w) && Inert(w[1..])
    ensures p.Valid() && Inert(p.Text()[1..]) && '$' !in rest
    ensures w + rest == p.Text() + after
  {
    if q: Placeholder :| q.Valid() && q.Text() <= w {
      p, after, rest := q, w[|q.Text()|..], "";
      PrefixTextIsCalm(q, w);
      assert w == q.Text() + after;
      assert w + rest == w;
    } else {
      p, rest := Complete(w);
      after := "";
      assert p.Text()[1..] == w[1..] + rest;
      DollarFreeIsInert(rest);
      InertConcat(w[1..], rest);
      assert p.Text() + after == p.Text();
    }
  }

  /** A live start in a value can be completed, by `rest`, to the spelling of a placeholder
      that is calm inside. */
  lemma CompleteValue(v: string)
      returns (before: string, p: Placeholder, after: string, rest: string)
    requires !Inert(v)
    ensures p.Valid() && Inert(p.Text()[1..]) && '$' !in rest
    ensures v + rest == before + p.Text() + after
  {
    var i := LastLive(v);
    var w := v[i..];
    before := v[..i];
    assert v == before + w && w[1..] == v[i + 1..];
    p, after, rest := CompleteLive(w);
    assert v + rest == before + (w + rest);
    assert before + (p.Text() + after) == before + p.Text() + after;
  }

  lemma NoMatchAtOther(s: string)
    requires s != "" && s[0] != '$'
    ensures MatchAt(s) == None
  {
    assert OPEN[0] == '$';
  }

  /** Text without dollar signs is copied. */
  lemma {:induction false} PlainRun(run: string, tail: string, vars: Variables)
    requires '$' !in run
    ensures Parse(run + tail) == Glue(run, Parse(tail))
    ensures Matches(run + tail) == Matches(tail)
    ensures OnePass(run + tail, vars) == run + OnePass(tail, vars)
  {
    if run == "" {
      assert run + tail == tail;
    } else {
      assert (run + tail)[1..] == run[1..] + tail && (run + tail)[0] == run[0];
      NoMatchAtOther(run + tail);
      PlainRun(run[1..], tail, vars);
      GlueFirst(run[0], run[1..], Parse(tail), OnePass(tail, vars));
      assert [run[0]] + run[1..] == run;
    }
  }

  lemma GlueFirst(c: char, run: string, chain: Chain, rest: string)
    ensures Glue([c], Glue(run, chain)) == Glue([c] + run, chain)
    ensures [c] + (run + rest) == ([c] + run) + rest
  {
    Reassociate([c], run, chain.run);
  }

  /** A placeholder is filled in. */
  lemma RefThen(first: Placeholder, tail: string, vars: Variables)
    requires first.Valid()
    ensures Parse(first.Text() + tail) == Link("", first, Parse(tail))
    ensures Matches(first.Text() + tail) == [first] + Matches(tail)
    ensures OnePass(first.Text() + tail, vars)
         == (if Replacement(first, vars).Some? then Replacement(first, vars).value else first.Text())
            + OnePass(tail, vars)
  {
    var s := first.Text() + tail;
    MatchIffSpelled(s, first);
    assert s[|first.Text()|..] == tail;
  }

  lemma TwoRefs(first: Placeholder, run: string, last: Placeholder, vars: Variables)
    requires '$' !in run && first.Valid() && last.Valid()
    requires Replacement(first, vars).Some? && Replacement(last, vars).Some?
    ensures var s := first.Text() + run + last.Text();
            && Parse(s) == Link("", first, Link(run, last, Last("")))
            && Matches(s) == [first, last]
            && OnePass(s, vars) == Replacement(first, vars).value + (run + Replacement(last, vars).value)
  {
    hide Parse, Matches, OnePass, Replacement;
    var f := last.Text();
    Reassociate(first.Text(), run, f);
    RefThen(first, run + f, vars);
    PlainRun(run, f, vars);
    assert f + "" == f;
    RefThen(last, "", vars);
    EmptyText(vars);
    assert run + "" == run && Replacement(last, vars).value + "" == Replacement(last, vars).value;
  }

  lemma EmptyText(vars: Variables)
    ensures Parse("") == Last("") && Matches("") == [] && OnePass("", vars) == ""
  {
  }

  // ---------------------------------------------------------------- the witness

  /** Replacing `first` puts the value next to `rest`, spelling `last` a second time. */
  lemma FirstStep(first: Placeholder, rest: string, last: Placeholder, v: string)
    requires first.Valid() && last.Valid() && first != last
    requires Inert(rest) && Inert(last.Text()[1..])
    ensures ReplaceAll(first.Text() + rest + last.Text(), first.Text(), v) == v + rest + last.Text()
  {
    var tail := rest + last.Text();
    var s := first.Text() + tail;
    assert s == first.Text() + rest + last.Text();
    assert s[|first.Text()|..] == tail;
    SkipInert(rest, last.Text(), first, v);
    assert last.Text() + "" == last.Text();
    if NestedIn(first, last) {
      HidingIsNotCalm(last, first);
    }
    SkipOther(last, "", first, v);
    assert v + (rest + last.Text()) == v + rest + last.Text();
  }

  lemma InertTailSelfOverlapFree(p: Placeholder)
    requires p.Valid() && Inert(p.Text()[1..])
    ensures SelfOverlapFree(p.Text())
  {
    var f := p.Text();
    forall k | 0 < k < |f|
      ensures !(f[k..] <= f)
    {
      assert f[1..][k - 1..] == f[k..];
    }
  }

  /** Removing `last` from that text takes both of its occurrences away. */
  lemma SecondStep(before: string, last: Placeholder, after: string)
    requires last.Valid() && Inert(last.Text()[1..])
    ensures |ReplaceAll(before + last.Text() + after + last.Text(), last.Text(), "")| <= |before| + |after|
  {
    var f := last.Text();
    InertTailSelfOverlapFree(last);
    assert before + f + after + f == before + f + (after + f);
    ReplaceAround(before, f, after + f, "");
    assert after + f == after + f + "";
    ReplaceAround(after, f, "", "");
    RemovalShrinks(before, f);
    RemovalShrinks(after, f);
  }

  lemma OtherName(taken: string) returns (p: Placeholder)
    ensures p.Valid() && p.name != taken && p.default == None && '$' !in p.Text()[1..]
  {
    var a, b := "a", "b";
    p := Placeholder(if taken == a then b else a, None);
    HeadSpelling(p);
    HeadHasOneDollar(p);
    assert p.Text()[1..] == Head(p)[1..] + "}";
  }

  /** A value that is not inert has a calm template in which the rewriting loop loses
      text that the substitution keeps. */
  lemma NotInertIsNotSafe(v: string)
    requires !Inert(v)
    ensures exists name, template, vars ::
              CalmTemplate(template) && Uses(v, name, template, vars) && !LoopAgrees(template, vars)
  {
    var before, last, after, rest := CompleteValue(v);
    var first := OtherName(last.name);
    var vars := map[first.name := v, last.name := ""];
    var template := first.Text() + rest + last.Text();
    WitnessIsUse(first, rest, last, vars, v);
    WitnessDisagrees(first, rest, last, vars, v, before, after);
    assert CalmTemplate(template) && Uses(v, first.name, template, vars) && !LoopAgrees(template, vars);
  }

  lemma WitnessDisagrees(first: Placeholder, rest: string, last: Placeholder, vars: Variables, v: string,
                         before: string, after: string)
    requires first.Valid() && last.Valid() && first.name != last.name
    requires '$' !in rest && Inert(rest) && Inert(last.Text()[1..])
    requires vars == map[first.name := v, last.name := ""]
    requires v + rest == before + last.Text() + after
    ensures !LoopAgrees(first.Text() + rest + last.Text(), vars)
  {
    var template := first.Text() + rest + last.Text();
    TwoRefs(first, rest, last, vars);
    assert v + (rest + "") == v + rest;
    FirstStep(first, rest, last, v);
    SecondStep(before, last, after);
    WitnessRewrite(template, first, last, vars);
    assert |OnePass(template, vars)| == |before| + |last.Text()| + |after|;
    assert |Rewrite(template, Matches(template), vars)| <= |before| + |after|;
  }

  lemma WitnessIsUse(first: Placeholder, rest: string, last: Placeholder, vars: Variables, v: string)
    requires first.Valid() && last.Valid() && '$' !in rest && first.name != last.name
    requires '$' !in first.Text()[1..] && Inert(last.Text()[1..])
    requires vars == map[first.name := v, last.name := ""]
    ensures Uses(v, first.name, first.Text() + rest + last.Text(), vars)
    ensures CalmTemplate(first.Text() + rest + last.Text()) && Inert(rest)
  {
    var template := first.Text() + rest + last.Text();
    TwoRefs(first, rest, last, vars);
    WitnessIsCalm(template, first, rest, last);
    CalmIsSeparate(template);
    DollarFreeIsInert("");
  }

  lemma WitnessIsCalm(template: string, first: Placeholder, rest: string, last: Placeholder)
    requires Parse(template) == Link("", first, Link(rest, last, Last(""))) && Matches(template) == [first, last]
    requires '$' !in rest && '$' !in first.Text()[1..] && Inert(last.Text()[1..])
    ensures CalmTemplate(template) && Inert(rest)
  {
    DollarFreeIsInert(first.Text()[1..]);
    DollarFreeIsInert(rest);
    var tail := Link(rest, last, Last(""));
    assert tail.Runs() == [rest, ""] && Parse(template).Runs() == [""] + tail.Runs();
  }

  lemma WitnessRewrite(template: string, first: Placeholder, last: Placeholder, vars: Variables)
    requires Matches(template) == [first, last]
    requires first.name in vars && last.name in vars
    ensures Rewrite(template, Matches(template), vars)
         == ReplaceAll(ReplaceAll(template, first.Text(), vars[first.name]), last.Text(), vars[last.name])
  {
    var once := ReplaceAll(template, first.Text(), vars[first.name]);
    var twice := ReplaceAll(once, last.Text(), vars[last.name]);
    assert [first, last][1..] == [last] && [last][1..] == [];
    assert Rewrite(twice, [], vars) == twice;
    assert Rewrite(once, [last], vars) == Rewrite(twice, [last][1..], vars);
  }

  /** A value is safe in every template exactly when no placeholder can start inside it,
      which `CanBegin` checks at each of its positions. */
  lemma SafeIffInert(v: string)
    ensures SafeValue(v) <==> Inert(v)
    ensures Inert(v) <==> forall i :: 0 <= i < |v| ==> !CanBegin(v[i..])
  {
    if !Inert(v) {
      NotInertIsNotSafe(v);
    } else {
      forall name, template, vars | Uses(v, name, template, vars)
        ensures LoopAgrees(template, vars)
      {
        RewriteIsOnePass(template, vars);
      }
    }
    forall i | 0 <= i < |v|
      ensures CanBegin(v[i..]) <==> Live(v[i..])
    {
      CanBeginIffLive(v[i..]);
    }
  }

  /** A lone dollar sign is unsafe, because following text can complete it to a
      placeholder; a price is safe, because nothing can. */
  lemma DollarExamples()
    ensures !SafeValue("$") && SafeValue("$5")
  {
    assert OPEN[0] == '$' && OPEN[1] == '{';
    var dollar, price := "$", "$5";
    assert dollar[0..] == dollar && CanBegin(dollar);
    SafeIffInert(dollar);
    assert price[0..] == price && price[1..] == ['5'];
    assert !CanBegin(price) && !CanBegin(['5']);
    SafeIffInert(price);
  }
}
