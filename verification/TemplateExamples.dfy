/** Families of templates for which resolution is not a substitution, although all values are
    inert. */
module TemplateExamples {
  import opened Interference
  import opened Placeholders
  import opened Sequences
  import opened TemplateSafety
  import opened Text
  import opened ValueSafety
  import opened VariableResolver
  import opened Wrappers

  // ---------------------------------------------------------------- a seam

  /** The template `$${variable.x}`, a run of plain text, and `${variable.y}`, for any two
      names. The value `{variable.y}` of the first is inert and so is the empty value of
      the second. Yet with the dollar sign before it the first value spells the second
      placeholder, which is then replaced twice. */
  lemma SeamDisagrees(x: string, y: string, run: string)
    requires x != y && Placeholder(x, None).Valid() && Placeholder(y, None).Valid()
    requires '$' !in run
    ensures var p, q := Placeholder(x, None), Placeholder(y, None);
            var template := "$" + p.Text() + run + q.Text();
            var vars := map[x := q.Text()[1..], y := ""];
            && Resolvable(template, vars) && CalmValues(template, vars) && CalmInside(template)
            && OnePass(template, vars) == q.Text() + run
            && Rewrite(template, Matches(template), vars) == run
            && SpellsAhead(template)
  {
    hide Seam, Rewrite, OnePass, Matches, MatchAt, SpellsAhead;
    var p, q := Placeholder(x, None), Placeholder(y, None);
    var vars := map[x := q.Text()[1..], y := ""];
    var template := "$" + p.Text() + run + q.Text();
    SingleDollarSpelling(p);
    SingleDollarSpelling(q);
    DollarFreeIsInert(p.Text()[1..]);
    DollarFreeIsInert(q.Text()[1..]);
    DollarFreeIsInert("");
    SeamOnePass(p, q, run, vars);
    SeamRewrite(p, q, run, vars);
    CalmInsideNestsNothing(template);
    if !SpellsAhead(template) {
      RewriteIsOnePass(template, vars);
    }
  }

  lemma SeamOnePass(p: Placeholder, q: Placeholder, run: string, vars: Variables)
    requires p.Valid() && q.Valid() && '$' !in run && q.Text() == "$" + q.Text()[1..]
    requires Replacement(p, vars) == Some(q.Text()[1..]) && Replacement(q, vars) == Some("")
    ensures var template := "$" + p.Text() + run + q.Text();
            Matches(template) == [p, q] && OnePass(template, vars) == q.Text() + run
  {
    hide Matches, OnePass, Parse;
    var rest, value := p.Text() + run + q.Text(), q.Text()[1..];
    TwoRefs(p, run, q, vars);
    DollarBefore(rest, vars);
    Associate4("$", p.Text(), run, q.Text());
    assert run + "" == run;
    Reassociate("$", value, run);
  }

  lemma Associate4(a: string, b: string, c: string, d: string)
    ensures a + b + c + d == a + (b + c + d)
  {
  }

  lemma SeamRewrite(p: Placeholder, q: Placeholder, run: string, vars: Variables)
    requires p.Valid() && q.Valid() && p != q && '$' !in run
    requires '$' !in p.Text()[1..] && '$' !in q.Text()[1..] && q.Text() == "$" + q.Text()[1..]
    requires vars == map[p.name := q.Text()[1..], q.name := ""] && p.name != q.name
    ensures var template := "$" + p.Text() + run + q.Text();
            Matches(template) == [p, q] ==> Rewrite(template, Matches(template), vars) == run
  {
    var template := "$" + p.Text() + run + q.Text();
    SeamFirstStep(p, q, run);
    Reassociate(q.Text(), run, q.Text());
    BothCopiesGo(q, run);
    if Matches(template) == [p, q] {
      WitnessRewrite(template, p, q, vars);
    }
  }

  lemma SingleDollarSpelling(p: Placeholder)
    requires p.Valid() && p.default.None?
    ensures '$' !in p.Text()[1..] && p.Text() == "$" + p.Text()[1..]
  {
    HeadSpelling(p);
    HeadHasOneDollar(p);
    assert p.Text()[1..] == Head(p)[1..] + "}";
  }

  /** A dollar sign before a placeholder is copied. */
  lemma DollarBefore(s: string, vars: Variables)
    requires s != "" && s[0] == '$'
    ensures Matches("$" + s) == Matches(s) && OnePass("$" + s, vars) == "$" + OnePass(s, vars)
  {
    var longer := "$" + s;
    assert longer[1..] == s && longer[1] == '$' && OPEN[1] == '{';
    assert MatchAt(longer) == None;
  }

  lemma SeamFirstStep(p: Placeholder, q: Placeholder, run: string)
    requires p.Valid() && q.Valid() && p != q && '$' !in run
    requires '$' !in p.Text()[1..] && '$' !in q.Text()[1..] && q.Text() == "$" + q.Text()[1..]
    ensures ReplaceAll("$" + p.Text() + run + q.Text(), p.Text(), q.Text()[1..]) == q.Text() + run + q.Text()
  {
    var value, rest := q.Text()[1..], p.Text() + run + q.Text();
    DollarFreeIsInert(run);
    DollarFreeIsInert(value);
    FirstStep(p, run, q, value);
    Associate4("$", p.Text(), run, q.Text());
    LoneDollarStays(p, rest, value);
    Regroup("$", value, run, q.Text());
  }

  lemma LoneDollarStays(p: Placeholder, rest: string, r: string)
    requires rest != "" && rest[0] == '$'
    ensures ReplaceAll("$" + rest, p.Text(), r) == "$" + ReplaceAll(rest, p.Text(), r)
  {
    var s := "$" + rest;
    assert OPEN[1] == '{' && p.Text()[1] == '{' && s[1] == '$';
    assert s[1..] == rest;
  }

  /** Both copies are removed. */
  lemma BothCopiesGo(q: Placeholder, run: string)
    requires q.Valid() && '$' !in run
    ensures ReplaceAll(q.Text() + (run + q.Text()), q.Text(), "") == run
  {
    hide ReplaceAll;
    var f := q.Text();
    ReplaceHere(q, run + f, "");
    DollarFreeIsInert(run);
    SkipInert(run, f, q, "");
    ReplaceHere(q, "", "");
    NothingToReplace(f);
    assert f + "" == f && run + "" == run && "" + run == run;
  }

  lemma NothingToReplace(pattern: string)
    requires pattern != ""
    ensures ReplaceAll("", pattern, "") == ""
  {
  }

  lemma ReplaceHere(m: Placeholder, tail: string, r: string)
    ensures ReplaceAll(m.Text() + tail, m.Text(), r) == r + ReplaceAll(tail, m.Text(), r)
  {
    assert (m.Text() + tail)[|m.Text()|..] == tail;
  }

  // ---------------------------------------------------------------- a nested default

  lemma {:induction false} NoBraceNoChange(s: string, p: Placeholder, r: string)
    requires '}' !in s
    ensures ReplaceAll(s, p.Text(), r) == s
    decreases |s|
  {
    if s != "" {
      assert p.Text()[|p.Text()| - 1] == '}';
      NoBraceNoChange(s[1..], p, r);
    }
  }

  /** The spelling of the nested placeholder: `inner` without its brace as a default. */
  function Nested(x: string, y: string): Placeholder {
    Placeholder(y, Some(OPEN + x))
  }

  lemma NestedSpelling(x: string, y: string)
    ensures Nested(x, y).Text() == OPEN + y + ":-" + Placeholder(x, None).Text()
  {
    assert Placeholder(x, None).Text() == OPEN + x + "}";
  }

  /** The template `${variable.x}`, a run of plain text, and `${variable.y:-${variable.x}`,
      for any two names. The default hides the spelling of the first placeholder, so
      replacing that one everywhere destroys the second match: its opening stays in the
      result, although both values are empty. */
  lemma NestedDefaultDisagrees(x: string, y: string, run: string)
    requires x != y && Placeholder(x, None).Valid() && Placeholder(y, None).Valid()
    requires '$' !in run && '}' !in run
    ensures var template := Placeholder(x, None).Text() + run + Nested(x, y).Text();
            var vars := map[x := "", y := ""];
            && Resolvable(template, vars) && CalmValues(template, vars)
            && OnePass(template, vars) == run
            && Rewrite(template, Matches(template), vars) == run + OPEN + y + ":-"
            && Nests(template)
  {
    var p, q := Placeholder(x, None), Nested(x, y);
    var template := p.Text() + run + q.Text();
    var vars := map[x := "", y := ""];
    NestedValid(x, y);
    TwoRefs(p, run, q, vars);
    DollarFreeIsInert("");
    assert "" + (run + "") == run;
    NestedFirstStep(x, y, run);
    NoBraceNoChange(run + OPEN + y + ":-", q, "");
    WitnessRewrite(template, p, q, vars);
    NestedSpelling(x, y);
    assert EndsWith(q.Text(), p.Text()) by {
      assert q.Text() == (OPEN + y + ":-") + p.Text();
    }
    assert Matches(template)[1] !in Matches(template)[..0];
  }

  lemma NestedValid(x: string, y: string)
    requires Placeholder(x, None).Valid() && Placeholder(y, None).Valid()
    ensures Nested(x, y).Valid()
    ensures '}' !in OPEN && '}' !in x && '}' !in y && '$' !in Placeholder(x, None).Text()[1..]
  {
  }

  lemma NestedFirstStep(x: string, y: string, run: string)
    requires Placeholder(x, None).Valid() && Placeholder(y, None).Valid()
    requires '$' !in run && '}' !in run
    ensures var f := Placeholder(x, None).Text();
            ReplaceAll(f + run + Nested(x, y).Text(), f, "") == run + OPEN + y + ":-"
    ensures '}' !in run + OPEN + y + ":-"
  {
    var p := Placeholder(x, None);
    NestedValid(x, y);
    NestedSpelling(x, y);
    RegroupNested(p.Text(), run, OPEN, y, ":-");
    RemoveTwice(p, run + OPEN + y + ":-");
  }

  lemma RegroupNested(f: string, run: string, open: string, name: string, mark: string)
    ensures f + run + (open + name + mark + f) == f + ((run + open + name + mark) + f + "")
  {
  }

  lemma RemoveTwice(p: Placeholder, kept: string)
    requires p.Valid() && '$' !in p.Text()[1..] && '}' !in kept
    ensures ReplaceAll(p.Text() + (kept + p.Text() + ""), p.Text(), "") == kept
  {
    var f := p.Text();
    DollarFreeIsInert(f[1..]);
    InertTailSelfOverlapFree(p);
    var s := f + (kept + f + "");
    assert s[|f|..] == kept + f + "";
    ReplaceAround(kept, f, "", "");
    NoBraceNoChange(kept, p, "");
  }

  // ---------------------------------------------------------------- a seam that takes two values

  lemma MatchesStop(head: string, y: string, tail: string)
    requires Placeholder(y, None).Valid() && head != "" && head <= OPEN + y
    requires tail != "" && tail[0] == '$'
    ensures MatchAt(head + tail) == None && '$' !in head[1..]
  {
    var s := head + tail;
    assert '$' !in OPEN[1..] && '$' !in y;
    assert s[|head|] == '$';
    if |head| < |OPEN| {
      assert OPEN[|head|] != '$';
    } else {
      var name := head[|OPEN|..];
      assert name == y[..|name|] && s[|OPEN|..] == name + tail;
      IdentLengthIs(name, tail);
    }
  }

  /** The start of a spelling that a dollar sign breaks off is copied. */
  lemma HeadThen(head: string, y: string, tail: string, vars: Variables)
    requires Placeholder(y, None).Valid() && head != "" && head <= OPEN + y
    requires tail != "" && tail[0] == '$'
    ensures Parse(head + tail) == Glue(head, Parse(tail)) && Matches(head + tail) == Matches(tail)
    ensures OnePass(head + tail, vars) == head + OnePass(tail, vars)
  {
    MatchesStop(head, y, tail);
    assert (head + tail)[1..] == head[1..] + tail && (head + tail)[0] == head[0];
    PlainRun(head[1..], tail, vars);
    GlueFirst(head[0], head[1..], Parse(tail), OnePass(tail, vars));
    assert [head[0]] + head[1..] == head;
  }

  lemma HeadStays(head: string, tail: string, m: Placeholder, r: string)
    requires head != "" && '$' !in head[1..] && m.Valid() && !(m.Text() <= head + tail)
    ensures ReplaceAll(head + tail, m.Text(), r) == head + ReplaceAll(tail, m.Text(), r)
  {
    forall i | 0 <= i < |head|
      ensures !(m.Text() <= head[i..] + tail)
    {
      if i == 0 {
        assert head[0..] == head;
      } else {
        assert head[i] == head[1..][i - 1] && (head[i..] + tail)[0] == head[i] && m.Text()[0] == '$';
      }
    }
    SkipFree(head, tail, m.Text(), r);
  }

  /** The names and texts of the family below: `$x$w`, a run, and `y` with a hidden `z`. */
  ghost predicate TwoValues(head: string, v: string, x: string, w: string, y: string, z: string, run: string) {
    && Placeholder(x, None).Valid() && Placeholder(w, None).Valid()
    && Placeholder(y, None).Valid() && Placeholder(z, None).Valid()
    && x != w && y != x && y != w && z != x && z != w
    && head != "" && head <= OPEN + y && head + v == OPEN + y + ":-"
    && '$' !in run
  }

  lemma OnlyDollar(name: string)
    requires Placeholder(name, None).Valid()
    ensures var f := Placeholder(name, None).Text(); '$' !in f[1..] && f == "$" + f[1..] && f == OPEN + name + "}"
  {
    SingleDollarSpelling(Placeholder(name, None));
  }

  /** Two placeholders without defaults end a text only if they are the same. */
  lemma NotNested(x: string, z: string, y: string)
    requires Placeholder(x, None).Valid() && Placeholder(z, None).Valid() && Placeholder(y, None).Valid() && x != z
    ensures !NestedIn(Placeholder(x, None), Nested(z, y)) && Placeholder(x, None) != Nested(z, y)
  {
    var f, g, h := Placeholder(x, None).Text(), Placeholder(z, None).Text(), OPEN + y + ":-";
    OnlyDollar(x);
    OnlyDollar(z);
    NestedSpelling(z, y);
    assert '$' !in h[1..];
    if NestedIn(Placeholder(x, None), Nested(z, y)) {
      FromLastDollar(h, g, f);
      PrefixFree(Placeholder(x, None), Placeholder(z, None));
    }
  }

  /** The end of a text from its last dollar sign on is determined by that. */
  lemma FromLastDollar(h: string, g: string, f: string)
    requires h != "" && '$' !in h[1..]
    requires g != "" && g[0] == '$' && '$' !in g[1..]
    requires f != "" && f[0] == '$'
    requires EndsWith(h + g, f) && |f| < |h + g|
    ensures f == g
  {
    var k := |h + g| - |f|;
    assert forall i :: 0 < i < |h| ==> h[i] == h[1..][i - 1];
    assert forall i :: 0 < i < |g| ==> g[i] == g[1..][i - 1];
    assert (h + g)[k] == '$';
  }

  lemma RunAndNestedStay(m: Placeholder, run: string, q: Placeholder, r: string)
    requires m.Valid() && q.Valid() && m != q && !NestedIn(m, q) && '$' !in run
    ensures ReplaceAll(run + q.Text(), m.Text(), r) == run + q.Text()
  {
    DollarFreeIsInert(run);
    SkipInert(run, q.Text(), m, r);
    assert q.Text() + "" == q.Text();
    SkipOther(q, "", m, r);
  }

  /** Before the values are in place the first turn concerns the first placeholder only. */
  lemma TwoValuesFirst(head: string, v: string, x: string, w: string, y: string, z: string, run: string)
    requires TwoValues(head, v, x, w, y, z, run)
    ensures var p, o, q := Placeholder(x, None), Placeholder(w, None), Nested(z, y);
            var tail := "$" + (o.Text() + (run + q.Text()));
            ReplaceAll(head + (p.Text() + tail), p.Text(), v) == (head + v) + tail
  {
    var p, o, q := Placeholder(x, None), Placeholder(w, None), Nested(z, y);
    var last := run + q.Text();
    var tail := "$" + (o.Text() + last);
    NestedValid(z, y);
    NotNested(x, z, y);
    OnlyDollar(w);
    MatchesStop(head, y, p.Text() + tail);
    MatchIffSpelled(head + (p.Text() + tail), p);
    HeadStays(head, p.Text() + tail, p, v);
    ReplaceHere(p, tail, v);
    LoneDollarStays(p, o.Text() + last, v);
    DollarFreeIsInert(o.Text()[1..]);
    if NestedIn(p, o) {
      HidingIsNotCalm(o, p);
    }
    SkipOther(o, last, p, v);
    RunAndNestedStay(p, run, q, v);
    Reassociate(head, v, tail);
  }

  /** The first value has begun a default that the second placeholder seems to be part of. */
  lemma DefaultAhead(y: string, w: string, last: string)
    requires Placeholder(y, None).Valid() && Placeholder(w, None).Valid()
    ensures !(Placeholder(w, None).Text() <= (OPEN + y + ":-") + ("$" + (Placeholder(w, None).Text() + last)))
  {
    var o := Placeholder(w, None);
    var seeming := Placeholder(y, Some("$" + OPEN + w));
    var text := (OPEN + y + ":-") + ("$" + (o.Text() + last));
    OnlyDollar(w);
    SeemingSpelling(OPEN + y + ":-", OPEN, w, last);
    assert seeming.Valid();
    assert seeming.Text() == (OPEN + y + ":-") + (("$" + OPEN + w) + "}");
    MatchIffSpelled(text, seeming);
    MatchIffSpelled(text, o);
  }

  lemma SeemingSpelling(a: string, open: string, w: string, last: string)
    ensures a + (("$" + open + w) + "}") <= a + ("$" + ((open + w + "}") + last))
  {
    assert a + (("$" + open + w) + "}") + last == a + ("$" + ((open + w + "}") + last));
  }

  lemma TwoValuesSecond(x: string, w: string, y: string, z: string, run: string)
    requires TwoValues(OPEN + y, ":-", x, w, y, z, run)
    ensures var o, q, value := Placeholder(w, None), Nested(z, y), Placeholder(z, None).Text()[1..];
            ReplaceAll((OPEN + y + ":-") + ("$" + (o.Text() + (run + q.Text()))), o.Text(), value)
              == q.Text() + (run + q.Text())
  {
    hide ReplaceAll, NestedIn;
    var d, o, q := OPEN + y + ":-", Placeholder(w, None), Nested(z, y);
    var last, r := run + q.Text(), Placeholder(z, None).Text()[1..];
    NestedValid(z, y);
    NotNested(w, z, y);
    OnlyDollar(w);
    OnlyDollar(z);
    NestedSpelling(z, y);
    DefaultAhead(y, w, last);
    assert '$' !in d[1..];
    HeadStays(d, "$" + (o.Text() + last), o, r);
    LoneDollarStays(o, o.Text() + last, r);
    ReplaceHere(o, last, r);
    RunAndNestedStay(o, run, q, r);
    CollectValues(d, r, last);
  }

  lemma CollectValues(d: string, r: string, last: string)
    ensures d + ("$" + (r + last)) == (d + ("$" + r)) + last
  {
  }

  lemma RewriteThree(template: string, p: Placeholder, o: Placeholder, q: Placeholder, vars: Variables)
    requires p.name in vars && o.name in vars && q.name in vars
    ensures Rewrite(template, [p, o, q], vars)
         == ReplaceAll(ReplaceAll(ReplaceAll(template, p.Text(), vars[p.name]), o.Text(), vars[o.name]),
                       q.Text(), vars[q.name])
  {
    var once := ReplaceAll(template, p.Text(), vars[p.name]);
    var twice := ReplaceAll(once, o.Text(), vars[o.name]);
    assert [p, o, q][1..] == [o, q] && [o, q][1..] == [q] && [q][1..] == [];
    assert Rewrite(once, [o, q], vars) == Rewrite(twice, [q], vars);
    assert Rewrite(twice, [q], vars) == Rewrite(ReplaceAll(twice, q.Text(), vars[q.name]), [], vars);
  }

  lemma TwoValuesOnePass(head: string, v: string, x: string, w: string, y: string, z: string, run: string,
                         vars: Variables)
    requires TwoValues(head, v, x, w, y, z, run)
    requires vars == map[x := v, w := Placeholder(z, None).Text()[1..], y := ""]
    ensures var p, o, q := Placeholder(x, None), Placeholder(w, None), Nested(z, y);
            var template := head + (p.Text() + ("$" + (o.Text() + (run + q.Text()))));
            && Parse(template) == Link(head, p, Link("$", o, Link(run, q, Last(""))))
            && Matches(template) == [p, o, q]
            && OnePass(template, vars) == q.Text() + run
  {
    hide Parse, Matches, OnePass;
    var p, o, q := Placeholder(x, None), Placeholder(w, None), Nested(z, y);
    var last, r := run + q.Text(), Placeholder(z, None).Text()[1..];
    NestedValid(z, y);
    OnlyDollar(w);
    OnlyDollar(x);
    OnlyDollar(z);
    NestedSpelling(z, y);
    RefThen(q, "", vars);
    EmptyText(vars);
    assert q.Text() + "" == q.Text() && run + "" == run;
    PlainRun(run, q.Text(), vars);
    RefThen(o, last, vars);
    HeadThen("$", y, o.Text() + last, vars);
    RefThen(p, "$" + (o.Text() + last), vars);
    HeadThen(head, y, p.Text() + ("$" + (o.Text() + last)), vars);
    Reassociate(head, v, "$" + (r + run));
    CollectValues(head + v, r, run);
    assert head + "" == head && "$" + "" == "$";
  }

  /** The template `${variable.x}` after some beginning of `${variable.y`, then `$${variable.w}`, a
      run of plain text, and `${variable.y:-${variable.z}`, for any suitable names. With the
      inert values `v` for the first, which goes on to `:-`, `{variable.z}` for the second, and
      nothing for the third, the first two together spell the third. */
  lemma TwoValuesDisagree(head: string, v: string, x: string, w: string, y: string, z: string, run: string)
    requires TwoValues(head, v, x, w, y, z, run)
    ensures var p, o, q := Placeholder(x, None), Placeholder(w, None), Nested(z, y);
            var template := head + (p.Text() + ("$" + (o.Text() + (run + q.Text()))));
            var vars := map[x := v, w := Placeholder(z, None).Text()[1..], y := ""];
            && Resolvable(template, vars) && CalmValues(template, vars)
            && OnePass(template, vars) == q.Text() + run
            && Rewrite(template, Matches(template), vars) == run
            && SpellsAhead(template) && !Nests(template) && !SafeTemplate(template)
  {
    hide Seam, Rewrite, OnePass, Matches, MatchAt, SpellsAhead, Parse, NestedIn, Nests, Inert, ReplaceAll;
    var p, o, q := Placeholder(x, None), Placeholder(w, None), Nested(z, y);
    var template := head + (p.Text() + ("$" + (o.Text() + (run + q.Text()))));
    var vars := map[x := v, w := Placeholder(z, None).Text()[1..], y := ""];
    TwoValuesOnePass(head, v, x, w, y, z, run, vars);
    TwoValuesFirst(head, v, x, w, y, z, run);
    TwoValuesSecond(x, w, y, z, run);
    NestedValid(z, y);
    BothCopiesGo(q, run);
    RewriteThree(template, p, o, q, vars);
    TwoValuesAreInert(head, v, y, z);
    NotNested(x, z, y);
    NotNested(w, z, y);
    OnlyDollar(w);
    NoneNest(p, o, q);
    assert !LoopAgrees(template, vars);
    if !SpellsAhead(template) {
      RewriteIsOnePass(template, vars);
    }
  }

  lemma TwoValuesAreInert(head: string, v: string, y: string, z: string)
    requires Placeholder(y, None).Valid() && Placeholder(z, None).Valid()
    requires head != "" && head + v == OPEN + y + ":-"
    ensures Inert(v) && Inert(Placeholder(z, None).Text()[1..]) && Inert("")
  {
    var d := OPEN + y + ":-";
    assert '$' !in d[1..];
    assert forall i :: 0 <= i < |v| ==> v[i] == d[1..][|head| - 1 + i];
    OnlyDollar(z);
    DollarFreeIsInert(v);
    DollarFreeIsInert(Placeholder(z, None).Text()[1..]);
    DollarFreeIsInert("");
  }

  lemma NoneNest(p: Placeholder, o: Placeholder, q: Placeholder)
    requires p.Valid() && o.Valid() && '$' !in o.Text()[1..] && !NestedIn(p, q) && !NestedIn(o, q)
    ensures forall template :: Matches(template) == [p, o, q] ==> !Nests(template)
  {
    DollarFreeIsInert(o.Text()[1..]);
    if NestedIn(p, o) {
      HidingIsNotCalm(o, p);
    }
  }

  /** If the beginning of `y` is longer than the opening and does not begin `w`, then no single
      value can complete a spelling: the family is outside of what `SafeTemplateIff` decides. */
  lemma TwoValuesNeeded(head: string, v: string, x: string, w: string, y: string, z: string, run: string)
    requires TwoValues(head, v, x, w, y, z, run)
    requires !(head <= Placeholder(w, None).Text())
    ensures var p, o, q := Placeholder(x, None), Placeholder(w, None), Nested(z, y);
            !SpellsAheadCalmly(head + (p.Text() + ("$" + (o.Text() + (run + q.Text())))))
  {
    hide Matches, OnePass, Parse, MatchAt;
    var p, o, q := Placeholder(x, None), Placeholder(w, None), Nested(z, y);
    var vars := map[x := v, w := Placeholder(z, None).Text()[1..], y := ""];
    TwoValuesOnePass(head, v, x, w, y, z, run, vars);
    ThreeLinks(head, p, "$", o, run, q);
    HeadDoesNotBegin(head, y, o);
    LiveRemainder(head, y, z);
    LiveRemainder("$", y, z);
  }

  lemma ThreeLinks(a: string, p: Placeholder, b: string, o: Placeholder, c: string, q: Placeholder)
    ensures var chain := Link(a, p, Link(b, o, Link(c, q, Last(""))));
            chain.Tokens() == [p, o, q] && chain.Runs() == [a, b, c, ""]
  {
    var end := Last("");
    var inner := Link(c, q, end);
    var middle := Link(b, o, inner);
    assert end.Tokens() == [] && end.Runs() == [""];
    assert inner.Tokens() == [q] + end.Tokens() && inner.Runs() == [c] + end.Runs();
    assert middle.Tokens() == [o] + inner.Tokens() && middle.Runs() == [b] + inner.Runs();
  }

  lemma HeadDoesNotBegin(head: string, y: string, o: Placeholder)
    requires Placeholder(y, None).Valid() && head <= OPEN + y && !(head <= o.Text())
    ensures !CalmSeam(head, o)
  {
    assert '$' !in OPEN[1..] && '$' !in y && o.Text()[0] == '$';
    forall n | 0 <= n < |head| && head[n..] <= o.Text()
      ensures n == 0
    {
      assert head[n..][0] == head[n];
    }
    assert head[0..] == head;
  }

  lemma LiveRemainder(head: string, y: string, z: string)
    requires Placeholder(y, None).Valid() && Placeholder(z, None).Valid() && head <= OPEN + y
    ensures !CalmSeam(head, Nested(z, y))
  {
    hide Inert, Nested;
    forall k | 0 <= k <= |head|
      ensures k <= |Nested(z, y).Text()| && !Inert(Nested(z, y).Text()[k..])
    {
      LiveAfter(k, y, z);
    }
  }

  lemma LiveAfter(k: nat, y: string, z: string)
    requires Placeholder(z, None).Valid() && k <= |OPEN + y|
    ensures k <= |Nested(z, y).Text()| && !Inert(Nested(z, y).Text()[k..])
  {
    hide Nested;
    var g, t := Placeholder(z, None), Nested(z, y).Text();
    var i := |OPEN + y + ":-"|;
    NestedSpelling(z, y);
    assert t[k..][i - k..] == t[i..] == g.Text();
    PrefixIsLive(g.Text(), g, "");
  }
}
