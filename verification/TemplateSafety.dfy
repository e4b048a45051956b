/** Which templates are safe to resolve: those that neither spell ahead nor nest. */
module TemplateSafety {
  import opened ChainRewriting
  import opened Interference
  import opened Placeholders
  import opened Sequences
  import opened Text
  import opened ValueSafety
  import opened VariableResolver
  import opened Wrappers

  /** With inert values the rewriting loop always yields the substitution. */
  ghost predicate SafeTemplate(template: string) {
    forall vars :: Resolvable(template, vars) && CalmValues(template, vars) ==> LoopAgrees(template, vars)
  }

  /** A seam whose remaining spelling hides no placeholder, so that a value can supply it. */
  ghost predicate CalmSeam(run: string, m: Placeholder) {
    exists n :: 0 <= n < |run| && run[n..] <= m.Text() && Inert(m.Text()[|run| - n..])
  }

  /** Some run, once the placeholder after it has given way to a suitable value, spells a match
      whose turn comes later. */
  ghost predicate SpellsAheadCalmly(template: string) {
    var ms, runs := Parse(template).Tokens(), Parse(template).Runs();
    exists i, k, j ::
      0 <= k < j < |ms| && 0 <= i < |ms| && i < |runs| && ms[i] == ms[k] && CalmSeam(runs[i], ms[j])
  }

  // ---------------------------------------------------------------- seams and nests are not quiet

  lemma ContainsAround(before: string, f: string, after: string)
    ensures Contains(before + f + after, f)
  {
    assert (before + f + after)[|before|..] == f + after;
  }

  lemma GlueKeepsLoud(text: string, c: Chain, m: Placeholder)
    requires !Quiet(c, m)
    ensures !Quiet(Glue(text, c), m)
  {
    if Contains(c.run, m.Text()) {
      var i :| 0 <= i <= |c.run| && m.Text() <= c.run[i..];
      assert (text + c.run)[|text| + i..] == c.run[i..];
    }
  }

  /** Filling in the placeholder after a seam completes the spelling. */
  lemma {:induction false} SeamIsLoud(c: Chain, i: nat, done: set<Placeholder>, vars: Variables,
                                      w: string, rest: string, m: Placeholder)
    requires i < |c.Tokens()| && i < |c.Runs()| && c.Tokens()[i] in done
    requires EndsWith(c.Runs()[i], w) && w + rest == m.Text()
    requires Replacement(c.Tokens()[i], vars).Some? && rest <= Replacement(c.Tokens()[i], vars).value
    ensures !Quiet(FillChain(c, done, vars), m)
  {
    var tail := FillChain(c.rest, done, vars);
    if i == 0 {
      var value, before := Replacement(c.p, vars).value, c.run[..|c.run| - |w|];
      var more := value[|rest|..];
      assert c.run == before + w && value == rest + more;
      ContainsAround(before, m.Text(), more + tail.run);
      Regroup5(before, w, rest, more, tail.run);
    } else {
      assert c.Tokens()[1..] == c.rest.Tokens() && c.Runs()[1..] == c.rest.Runs();
      SeamIsLoud(c.rest, i - 1, done, vars, w, rest, m);
      if c.p in done && Replacement(c.p, vars).Some? {
        GlueKeepsLoud(c.run + Replacement(c.p, vars).value, tail, m);
      }
    }
  }

  lemma Regroup5(a: string, b: string, c: string, d: string, e: string)
    ensures ((a + b) + (c + d)) + e == a + (b + c) + (d + e)
  {
  }

  lemma {:induction false} NestIsLoud(c: Chain, p: Placeholder, done: set<Placeholder>, vars: Variables, m: Placeholder)
    requires p in c.Tokens() && p !in done && NestedIn(m, p)
    ensures !Quiet(FillChain(c, done, vars), m)
  {
    if c.p != p {
      NestIsLoud(c.rest, p, done, vars, m);
      if c.p in done && Replacement(c.p, vars).Some? {
        GlueKeepsLoud(c.run + Replacement(c.p, vars).value, FillChain(c.rest, done, vars), m);
      }
    }
  }

  // ---------------------------------------------------------------- and so the loop goes astray

  /** If, at the turn of a match, its spelling occurs where it should not, the result comes
      out too long. */
  lemma {:induction false} LoopGrows(c: Chain, ms: seq<Placeholder>, n: nat, j: nat, vars: Variables, size: nat)
    requires n <= j < |ms| && Uncrossed(c, ms) && LongValues(ms, vars, size)
    requires !Quiet(FillChain(c, Elements(ms[..j]), vars), ms[j])
    ensures Size(RewriteChain(FillChain(c, Elements(ms[..n]), vars), ms[n..], vars), size) > Size(c, size)
    decreases j - n
  {
    hide Inert, Quiet, Size, FillChain, Step, Uncrossed;
    var d, m := FillChain(c, Elements(ms[..n]), vars), ms[n];
    var r := Replacement(m, vars).value;
    assert m in ms && ms[n..][1..] == ms[n + 1..];
    FillChainSize(c, Elements(ms[..n]), vars, ms, size);
    if !Quiet(d, m) {
      StepSize(d, m, r);
      StepUncrossed(d, m, r, ms);
      RewriteSpells(Step(d, m, r), ms, n + 1, vars, size);
    } else {
      QuietStep(d, m, vars, ms);
      FillMore(c, Elements(ms[..n]), m, vars);
      assert Elements(ms[..n]) + {m} == Elements(ms[..n + 1]);
      LoopGrows(c, ms, n + 1, j, vars, size);
    }
  }

  lemma {:induction false} FillLength(c: Chain, done: set<Placeholder>, vars: Variables, size: nat)
    requires forall p :: p in c.Tokens() ==>
               p in done && Replacement(p, vars).Some? && |Replacement(p, vars).value| == size
    ensures |Fill(c, done, vars)| == Size(c, size)
  {
    if c.Link? {
      assert c.Tokens()[0] == c.p && c.Tokens()[1..] == c.rest.Tokens();
      FillLength(c.rest, done, vars, size);
    }
  }

  lemma {:induction false} ScannedIsUncrossed(c: Chain, ms: seq<Placeholder>)
    requires Scanned(c) && forall m :: m in ms ==> m.Valid()
    ensures Uncrossed(c, ms)
  {
    if c.Link? {
      ScannedIsUncrossed(c.rest, ms);
      forall m, o | m in ms && 0 <= o < |c.run|
        ensures !(m.Text() <= c.run[o..] + c.p.Text())
      {
        MatchIffSpelled(c.run[o..] + c.p.Text(), m);
      }
    }
  }

  lemma UsedUp(c: Chain, ms: seq<Placeholder>, size: nat)
    requires forall q :: q in c.Tokens() ==> q in ms && q !in ms
    ensures |c.Spell()| == Size(c, size)
  {
    if c.Link? {
      assert c.p in c.Tokens();
    }
  }

  lemma LoudDisagrees(template: string, vars: Variables, j: nat, size: nat)
    requires LongValues(Matches(template), vars, size) && j < |Matches(template)|
    requires !Quiet(FillChain(Parse(template), Elements(Matches(template)[..j]), vars), Matches(template)[j])
    ensures !LoopAgrees(template, vars)
  {
    hide Quiet, Size, FillChain, RewriteChain, Rewrite, OnePass, Parse, Matches, Fill, Scanned, Long;
    var c, ms := Parse(template), Matches(template);
    ParseIsInput(template);
    MatchesAreValid(template);
    ScannedIsUncrossed(c, ms);
    assert Elements(ms[..0]) == {} && ms[0..] == ms;
    FillChainNothing(c, vars);
    LoopGrows(c, ms, 0, j, vars, size);
    RewriteSpells(c, ms, 0, vars, size);
    UsedUp(RewriteChain(c, ms, vars), ms, size);
    OnePassIsFill(template, Elements(ms), vars);
    FillLength(c, Elements(ms), vars, size);
    assert |Rewrite(template, ms, vars)| > Size(c, size) == |OnePass(template, vars)|;
  }

  // ---------------------------------------------------------------- witnesses

  function Bangs(n: nat): (s: string)
    ensures |s| == n && '$' !in s
  {
    if n == 0 then "" else "!" + Bangs(n - 1)
  }

  lemma {:induction false} SpellingsFit(s: string)
    ensures forall p :: p in Matches(s) ==> |p.Text()| <= |s|
    decreases |s|
  {
    if s != "" {
      match MatchAt(s)
      case Some(p) => SpellingsFit(s[|p.Text()|..]);
      case None => SpellingsFit(s[1..]);
    }
  }

  ghost function Names(ms: seq<Placeholder>): set<string> {
    set p | p in ms :: p.name
  }

  /** Values of one length for all names, one of which begins with a given text. */
  lemma LongFor(template: string, name: string, start: string) returns (vars: Variables, size: nat)
    requires Inert(start)
    ensures LongValues(Matches(template), vars, size)
    ensures forall p :: p in Matches(template) && p.name == name ==> start <= Replacement(p, vars).value
  {
    var ms, n := Matches(template), |template| + 1;
    size := |start| + n;
    var special, other := start + Bangs(n), Bangs(size);
    vars := map x | x in Names(ms) :: if x == name then special else other;
    DollarFreeIsInert(Bangs(n));
    InertConcat(start, Bangs(n));
    DollarFreeIsInert(other);
    SpellingsFit(template);
    MatchesAreValid(template);
    assert Long(special, ms) && Long(other, ms);
    assert forall p :: p in ms ==> p.name in Names(ms);
  }

  lemma LongValuesAreCalm(template: string, vars: Variables, size: nat)
    requires LongValues(Matches(template), vars, size)
    ensures Resolvable(template, vars) && CalmValues(template, vars)
  {
  }

  /** A template that nests goes wrong, whatever else it contains. */
  lemma NestsIsNotSafe(template: string)
    requires Nests(template)
    ensures !SafeTemplate(template)
  {
    var ms := Matches(template);
    var j, k :| 0 <= j < k < |ms| && ms[k] !in ms[..j] && NestedIn(ms[j], ms[k]);
    var vars, size := LongFor(template, "", "");
    ParseIsInput(template);
    NestIsLoud(Parse(template), ms[k], Elements(ms[..j]), vars, ms[j]);
    LoudDisagrees(template, vars, j, size);
    LongValuesAreCalm(template, vars, size);
  }

  lemma SeamCompletes(run: string, m: Placeholder) returns (w: string, rest: string)
    requires CalmSeam(run, m)
    ensures EndsWith(run, w) && w + rest == m.Text() && Inert(rest)
  {
    var n :| 0 <= n < |run| && run[n..] <= m.Text() && Inert(m.Text()[|run| - n..]);
    w := run[n..];
    rest := m.Text()[|w|..];
  }

  /** So does one that spells ahead, if for one seam the remainder of the spelling can be a
      value. */
  lemma SpellsAheadIsNotSafe(template: string)
    requires SpellsAheadCalmly(template)
    ensures !SafeTemplate(template)
  {
    hide Parse, Matches, Scanned, Inert, LoopAgrees, CalmSeam, Replacement, LongValues, Quiet, FillChain;
    var ms, runs := Parse(template).Tokens(), Parse(template).Runs();
    ParseIsInput(template);
    var i, k, j :|
      0 <= k < j < |ms| && 0 <= i < |ms| && i < |runs| && ms[i] == ms[k] && CalmSeam(runs[i], ms[j]);
    var w, rest := SeamCompletes(runs[i], ms[j]);
    var vars, size := LongFor(template, ms[i].name, rest);
    LongValuesAreCalm(template, vars, size);
    assert ms[..j][k] == ms[i];
    SeamIsLoud(Parse(template), i, Elements(ms[..j]), vars, w, rest, ms[j]);
    LoudDisagrees(template, vars, j, size);
  }

  /** A template is safe exactly when it neither spells ahead nor nests, which is checked on
      the template alone. All that is left open are templates that do not nest and in which
      every seam of a run with a later match leaves a remainder that hides a placeholder. */
  lemma SafeTemplateIff(template: string)
    requires SpellsAhead(template) ==> SpellsAheadCalmly(template) || Nests(template)
    ensures SafeTemplate(template) <==> !SpellsAhead(template) && !Nests(template)
  {
    if SpellsAheadCalmly(template) {
      SpellsAheadIsNotSafe(template);
      CalmSeamsAreSeams(template);
    } else if Nests(template) {
      NestsIsNotSafe(template);
    } else {
      forall vars | Resolvable(template, vars) && CalmValues(template, vars)
        ensures LoopAgrees(template, vars)
      {
        RewriteIsOnePass(template, vars);
      }
    }
  }

  lemma CalmSeamsAreSeams(template: string)
    requires SpellsAheadCalmly(template)
    ensures SpellsAhead(template)
  {
    var ms, runs := Parse(template).Tokens(), Parse(template).Runs();
    var i, k, j :|
      0 <= k < j < |ms| && 0 <= i < |ms| && i < |runs| && ms[i] == ms[k] && CalmSeam(runs[i], ms[j]);
    assert Seam(runs[i], ms[j]);
  }

  lemma CalmInsideMakesCalmSeam(run: string, m: Placeholder)
    requires Seam(run, m) && Inert(m.Text()[1..])
    ensures CalmSeam(run, m)
  {
    var n :| 0 <= n < |run| && run[n..] <= m.Text();
    var k := |run| - n;
    InertSuffix(m.Text()[1..], k - 1);
    assert m.Text()[1..][k - 1..] == m.Text()[k..];
  }

  /** If no placeholder hides another one then no seam does. */
  lemma CalmInsideSpellsCalmly(template: string)
    requires CalmInside(template) && SpellsAhead(template)
    ensures SpellsAheadCalmly(template)
  {
    hide Seam, CalmSeam, Inert;
    ParseIsInput(template);
    var ms, runs := Parse(template).Tokens(), Parse(template).Runs();
    var i, k, j :| 0 <= k < j < |ms| && 0 <= i < |ms| && i < |runs| && ms[i] == ms[k] && Seam(runs[i], ms[j]);
    CalmInsideMakesCalmSeam(runs[i], ms[j]);
  }

  /** For templates whose placeholders contain no second dollar sign, spelling ahead is all
      that can go wrong. */
  lemma SingleDollarTemplateIff(template: string)
    requires forall p :: p in Matches(template) ==> '$' !in p.Text()[1..]
    ensures SafeTemplate(template) <==> !SpellsAhead(template)
  {
    forall p | p in Matches(template)
      ensures Inert(p.Text()[1..])
    {
      DollarFreeIsInert(p.Text()[1..]);
    }
    if SpellsAhead(template) {
      CalmInsideSpellsCalmly(template);
    }
    CalmInsideNestsNothing(template);
    SafeTemplateIff(template);
  }

  // ---------------------------------------------------------------- plain templates

  lemma DollarsConcat(a: string, b: string)
    ensures multiset(a + b)['$'] == multiset(a)['$'] + multiset(b)['$']
    ensures multiset(a)['$'] == 0 <==> '$' !in a
  {
  }

  lemma FirstDollar(p: Placeholder)
    ensures multiset(p.Text())['$'] == 1 + multiset(p.Text()[1..])['$']
    ensures multiset(p.Text())['$'] == 1 <==> '$' !in p.Text()[1..]
  {
    var rest := p.Text()[1..];
    assert p.Text() == ['$'] + rest;
    DollarsConcat(['$'], rest);
    DollarsConcat(rest, "");
  }

  /** Every placeholder brings a dollar sign of its own; without others the runs have none
      and nor do the insides of placeholders. */
  lemma {:induction false} DollarsOfChain(c: Chain)
    ensures multiset(c.Spell())['$'] >= |c.Tokens()|
    ensures multiset(c.Spell())['$'] == |c.Tokens()| ==> forall p :: p in c.Tokens() ==> '$' !in p.Text()[1..]
    ensures multiset(c.Spell())['$'] == |c.Tokens()| ==> forall run :: run in c.Runs() ==> '$' !in run
  {
    hide Placeholder.Text;
    if c.Link? {
      DollarsOfChain(c.rest);
      FirstDollar(c.p);
      DollarsConcat(c.p.Text(), c.rest.Spell());
      DollarsConcat(c.run, c.p.Text() + c.rest.Spell());
    } else {
      DollarsConcat(c.run, "");
    }
  }

  /** A template with as many dollar signs as placeholders, so that each dollar sign starts
      one, resolves as promised under values and defaults without dollar signs. */
  lemma PlainTemplatesAgree(template: string, vars: Variables)
    requires multiset(template)['$'] == |Matches(template)| && Resolvable(template, vars)
    requires forall p :: p in Matches(template) ==> '$' !in Replacement(p, vars).value
    ensures LoopAgrees(template, vars)
  {
    ParseIsInput(template);
    DollarsOfChain(Parse(template));
    forall p | p in Matches(template)
      ensures Inert(p.Text()[1..]) && Inert(Replacement(p, vars).value)
    {
      DollarFreeIsInert(p.Text()[1..]);
      DollarFreeIsInert(Replacement(p, vars).value);
    }
    forall run | run in Parse(template).Runs()
      ensures Inert(run)
    {
      DollarFreeIsInert(run);
    }
    CalmIsSeparate(template);
    RewriteIsOnePass(template, vars);
  }

  /** Replacing the only spelling that a text matches is the substitution, whatever the
      text and the replacement contain. */
  lemma {:induction false} SoleSpelling(s: string, p: Placeholder, vars: Variables)
    requires p.Valid() && Replacement(p, vars).Some?
    requires forall q :: q in Matches(s) ==> q == p
    ensures ReplaceAll(s, p.Text(), Replacement(p, vars).value) == OnePass(s, vars)
    decreases |s|
  {
    if s != "" {
      MatchIffSpelled(s, p);
      var r, f := Replacement(p, vars).value, p.Text();
      if MatchAt(s).Some? {
        var rest := s[|MatchAt(s).value.Text()|..];
        assert Matches(s) == [MatchAt(s).value] + Matches(rest);
        assert MatchAt(s).value in Matches(s);
        assert forall m :: m in Matches(rest) ==> m in Matches(s);
        SoleSpelling(rest, p, vars);
        assert ReplaceAll(s, f, r) == r + ReplaceAll(rest, f, r);
        assert OnePass(s, vars) == r + OnePass(rest, vars);
      } else {
        assert Matches(s) == Matches(s[1..]);
        SoleSpelling(s[1..], p, vars);
        assert ReplaceAll(s, f, r) == [s[0]] + ReplaceAll(s[1..], f, r);
      }
    }
  }

  /** With a single placeholder there is nothing to interfere with: the loop keeps the
      promise for any value and any text around it. */
  lemma SinglePlaceholderAgrees(template: string, vars: Variables)
    requires |Matches(template)| == 1 && Resolvable(template, vars)
    ensures LoopAgrees(template, vars)
  {
    var p := Matches(template)[0];
    MatchesAreValid(template);
    assert Matches(template) == [p] && [p][1..] == [];
    SoleSpelling(template, p, vars);
  }
}
