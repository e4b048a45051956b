/** The rewriting loop when all values are long: replacing a spelling then acts on each
    literal run, and on each placeholder, by itself. */
module ChainRewriting {
  import opened Interference
  import opened Placeholders
  import opened Sequences
  import opened Text
  import opened VariableResolver
  import opened Wrappers

  // ---------------------------------------------------------------- replacing by long values

  /** Inert, and longer than every spelling in the list. */
  ghost predicate Long(r: string, ms: seq<Placeholder>) {
    Inert(r) && forall m :: m in ms ==> m.Valid() && |m.Text()| < |r|
  }

  lemma {:induction false} ReplaceSize(s: string, f: string, r: string)
    requires f != "" && |f| < |r|
    ensures |ReplaceAll(s, f, r)| >= |s|
    ensures if Contains(s, f) then |ReplaceAll(s, f, r)| > |s| && |ReplaceAll(s, f, r)| >= |r|
            else ReplaceAll(s, f, r) == s
    decreases |s|
  {
    if s == "" {
    } else if f <= s {
      ContainsTail(s, f);
      ReplaceSize(s[|f|..], f, r);
    } else {
      ContainsTail(s, f);
      ReplaceSize(s[1..], f, r);
    }
  }

  /** No spelling starts in the run and ends beyond it. */
  ghost predicate Lies(run: string, next: string, ms: seq<Placeholder>) {
    forall m, o :: m in ms && 0 <= o < |run| && m.Text() <= run[o..] + next ==> m.Text() <= run[o..]
  }

  lemma LiesTail(run: string, k: nat, next: string, ms: seq<Placeholder>)
    requires k <= |run| && Lies(run, next, ms)
    ensures Lies(run[k..], next, ms)
  {
    forall m, o | m in ms && 0 <= o < |run[k..]| && m.Text() <= run[k..][o..] + next
      ensures m.Text() <= run[k..][o..]
    {
      assert run[k..][o..] == run[k + o..];
    }
  }

  /** Nor, then, does one start before or in a long value and end beyond what follows it. */
  lemma LiesAfterLong(x: string, r: string, run: string, next: string, ms: seq<Placeholder>)
    requires Lies(run, next, ms) && Long(r, ms)
    ensures Lies((x + r) + run, next, ms)
  {
    var all := (x + r) + run;
    forall m, o | m in ms && 0 <= o < |all| && m.Text() <= all[o..] + next
      ensures m.Text() <= all[o..]
    {
      if o < |x| {
        PrefixShort(m.Text(), all[o..], next);
      } else if o < |x| + |r| {
        assert all[o..] == r[o - |x|..] + run;
        InLong(r, o - |x|, run, next, m);
      } else {
        assert all[o..] == run[o - |x| - |r|..];
      }
    }
  }

  lemma PrefixShort(f: string, x: string, y: string)
    requires f <= x + y && |f| <= |x|
    ensures f <= x
  {
  }

  lemma InLong(r: string, k: nat, run: string, next: string, m: Placeholder)
    requires Inert(r) && k < |r| && m.Valid()
    ensures !(m.Text() <= (r[k..] + run) + next)
  {
    InertSuffix(r, k);
    Reassociate(r[k..], run, next);
    NoMatchInInert(r[k..], run + next, m);
  }

  lemma {:induction false} LiesReplace(run: string, next: string, f: string, r: string, ms: seq<Placeholder>)
    requires f != "" && |f| < |r| && Lies(run, next, ms) && Long(r, ms)
    ensures Lies(ReplaceAll(run, f, r), next, ms)
    decreases |run|
  {
    if run == "" {
    } else if f <= run {
      LiesTail(run, |f|, next, ms);
      LiesReplace(run[|f|..], next, f, r, ms);
      LiesAfterLong("", r, ReplaceAll(run[|f|..], f, r), next, ms);
      assert "" + r == r;
    } else {
      LiesTail(run, 1, next, ms);
      LiesReplace(run[1..], next, f, r, ms);
      LiesKept(run, next, f, r, ms);
    }
  }

  lemma LiesKept(run: string, next: string, f: string, r: string, ms: seq<Placeholder>)
    requires run != "" && f != "" && |f| < |r| && !(f <= run)
    requires Lies(run, next, ms) && Long(r, ms) && Lies(ReplaceAll(run[1..], f, r), next, ms)
    ensures Lies(ReplaceAll(run, f, r), next, ms)
  {
    ReplaceSize(run, f, r);
    if Contains(run, f) {
      LiesCons(run[0], ReplaceAll(run[1..], f, r), next, ms);
    }
  }

  lemma LiesCons(c: char, tail: string, next: string, ms: seq<Placeholder>)
    requires Lies(tail, next, ms) && forall m :: m in ms ==> |m.Text()| <= 1 + |tail|
    ensures Lies([c] + tail, next, ms)
  {
    var all := [c] + tail;
    forall m, o | m in ms && 0 <= o < |all| && m.Text() <= all[o..] + next
      ensures m.Text() <= all[o..]
    {
      if o == 0 {
        assert all[0..] == all;
        PrefixShort(m.Text(), all, next);
      } else {
        assert all[o..] == tail[o - 1..];
      }
    }
  }

  /** Replacing in a run and in what follows it can be done apart. */
  lemma {:induction false} ReplaceApart(t: string, z: string, f: string, r: string)
    requires f != "" && forall o :: 0 <= o < |t| && f <= t[o..] + z ==> f <= t[o..]
    ensures ReplaceAll(t + z, f, r) == ReplaceAll(t, f, r) + ReplaceAll(z, f, r)
    decreases |t|
  {
    var whole := t + z;
    if t == "" {
      assert whole == z;
    } else if f <= whole {
      assert t[0..] == t;
      var tail := t[|f|..];
      assert whole[|f|..] == tail + z;
      assert forall o :: 0 <= o < |tail| ==> tail[o..] == t[|f| + o..];
      ReplaceApart(tail, z, f, r);
      Reassociate(r, ReplaceAll(tail, f, r), ReplaceAll(z, f, r));
    } else {
      var tail := t[1..];
      assert !(f <= t);
      assert whole[1..] == tail + z && whole[0] == t[0];
      assert forall o :: 0 <= o < |tail| ==> tail[o..] == t[1 + o..];
      ReplaceApart(tail, z, f, r);
      Reassociate([t[0]], ReplaceAll(tail, f, r), ReplaceAll(z, f, r));
    }
  }

  // ---------------------------------------------------------------- rewriting a chain

  /** Spellings that start in a run end in it. The runs may contain anything else. */
  ghost predicate Uncrossed(c: Chain, ms: seq<Placeholder>) {
    c.Link? ==> c.p.Valid() && Lies(c.run, c.p.Text(), ms) && Uncrossed(c.rest, ms)
  }

  /** What precedes the spelling of `m` at the end of `p`. */
  ghost function Before(p: Placeholder, m: Placeholder): string
    requires EndsWith(p.Text(), m.Text())
  {
    p.Text()[..|p.Text()| - |m.Text()|]
  }

  /** What replacing a spelling does to an uncrossed chain: it acts on each run by itself,
      and a placeholder so spelled, or hiding one so spelled, gives way. */
  ghost function Step(c: Chain, m: Placeholder, r: string): Chain {
    match c
    case Last(run) => Last(ReplaceAll(run, m.Text(), r))
    case Link(run, p, rest) =>
      if EndsWith(p.Text(), m.Text()) then
        Glue((ReplaceAll(run, m.Text(), r) + Before(p, m)) + r, Step(rest, m, r))
      else Link(ReplaceAll(run, m.Text(), r), p, Step(rest, m, r))
  }

  lemma GlueSpells(text: string, c: Chain)
    ensures Glue(text, c).Spell() == text + c.Spell() && Glue(text, c).Tokens() == c.Tokens()
  {
    if c.Link? {
      Reassociate(text, c.run, c.p.Text() + c.rest.Spell());
    }
  }

  lemma GlueUncrossed(x: string, r: string, c: Chain, ms: seq<Placeholder>)
    requires Uncrossed(c, ms) && Long(r, ms)
    ensures Uncrossed(Glue(x + r, c), ms)
  {
    if c.Link? {
      LiesAfterLong(x, r, c.run, c.p.Text(), ms);
    }
  }

  lemma {:induction false} StepUncrossed(c: Chain, m: Placeholder, r: string, ms: seq<Placeholder>)
    requires Uncrossed(c, ms) && m in ms && Long(r, ms)
    ensures Uncrossed(Step(c, m, r), ms)
    ensures forall q :: q in Step(c, m, r).Tokens() ==> q in c.Tokens() && q != m
  {
    if c.Link? {
      StepUncrossed(c.rest, m, r, ms);
      LiesReplace(c.run, c.p.Text(), m.Text(), r, ms);
      if EndsWith(c.p.Text(), m.Text()) {
        var x := ReplaceAll(c.run, m.Text(), r) + Before(c.p, m);
        GlueUncrossed(x, r, Step(c.rest, m, r), ms);
        GlueSpells(x + r, Step(c.rest, m, r));
      }
    }
  }

  lemma ReplaceInToken(p: Placeholder, tail: string, m: Placeholder, r: string)
    requires p.Valid() && m.Valid()
    ensures ReplaceAll(p.Text() + tail, m.Text(), r)
         == if EndsWith(p.Text(), m.Text()) then Before(p, m) + (r + ReplaceAll(tail, m.Text(), r))
            else p.Text() + ReplaceAll(tail, m.Text(), r)
  {
    if EndsWith(p.Text(), m.Text()) {
      var x, f := Before(p, m), m.Text();
      assert p.Text() == x + f;
      forall i | 0 <= i < |x|
        ensures !(f <= x[i..] + (f + tail))
      {
        if f <= x[i..] + (f + tail) {
          Reassociate(x[i..], f, tail);
          assert p.Text()[i..] == x[i..] + f;
          SpelledInside(p, i, tail, m);
        }
      }
      SkipFree(x, f + tail, f, r);
      Reassociate(x, f, tail);
      assert (f + tail)[|f|..] == tail;
    } else {
      SkipOther(p, tail, m, r);
    }
  }

  lemma SpelledBefore(run: string, p: Placeholder, tail: string, ms: seq<Placeholder>, m: Placeholder)
    requires p.Valid() && m.Valid() && m in ms && Lies(run, p.Text(), ms)
    ensures forall o :: 0 <= o < |run| && m.Text() <= run[o..] + (p.Text() + tail) ==> m.Text() <= run[o..]
  {
    forall o | 0 <= o < |run| && m.Text() <= run[o..] + (p.Text() + tail)
      ensures m.Text() <= run[o..]
    {
      Reassociate(run[o..], p.Text(), tail);
      OneBrace(p);
      BraceEnds(run[o..] + p.Text(), tail, m);
    }
  }

  lemma {:induction false} StepSpells(c: Chain, m: Placeholder, r: string, ms: seq<Placeholder>)
    requires Uncrossed(c, ms) && m in ms && m.Valid()
    ensures ReplaceAll(c.Spell(), m.Text(), r) == Step(c, m, r).Spell()
  {
    if c.Link? {
      var f, tail := m.Text(), c.rest.Spell();
      var run, rest := ReplaceAll(c.run, f, r), Step(c.rest, m, r);
      StepSpells(c.rest, m, r, ms);
      SpelledBefore(c.run, c.p, tail, ms, m);
      ReplaceApart(c.run, c.p.Text() + tail, f, r);
      ReplaceInToken(c.p, tail, m, r);
      if EndsWith(c.p.Text(), f) {
        GlueSpells((run + Before(c.p, m)) + r, rest);
        Regroup4(run, Before(c.p, m), r, rest.Spell());
      }
    }
  }

  lemma Regroup4(a: string, b: string, c: string, d: string)
    ensures a + (b + (c + d)) == ((a + b) + c) + d
  {
  }

  ghost function RewriteChain(c: Chain, ms: seq<Placeholder>, vars: Variables): Chain
    decreases |ms|
  {
    if ms == [] then c
    else
      var r := Replacement(ms[0], vars);
      RewriteChain(if r.Some? then Step(c, ms[0], r.value) else c, ms[1..], vars)
  }

  /** All values are inert and have one length, which no spelling reaches. */
  ghost predicate LongValues(ms: seq<Placeholder>, vars: Variables, size: nat) {
    forall p :: p in ms ==>
      Replacement(p, vars).Some? && Long(Replacement(p, vars).value, ms) && |Replacement(p, vars).value| == size
  }

  /** The length of the substitution. */
  ghost function Size(c: Chain, size: nat): nat {
    |c.run| + if c.Link? then size + Size(c.rest, size) else 0
  }

  /** The loop on the chain is the loop on its spelling, uses up every placeholder in the
      list, and never shrinks what will be the result. */
  lemma {:induction false} RewriteSpells(c: Chain, ms: seq<Placeholder>, n: nat, vars: Variables, size: nat)
    requires n <= |ms| && Uncrossed(c, ms) && LongValues(ms, vars, size)
    ensures Rewrite(c.Spell(), ms[n..], vars) == RewriteChain(c, ms[n..], vars).Spell()
    ensures forall q :: q in RewriteChain(c, ms[n..], vars).Tokens() ==> q in c.Tokens() && q !in ms[n..]
    ensures Size(RewriteChain(c, ms[n..], vars), size) >= Size(c, size)
    decreases |ms| - n
  {
    if n < |ms| {
      var m := ms[n];
      assert m in ms && ms[n..] == [m] + ms[n + 1..] && ms[n..][1..] == ms[n + 1..];
      var r := Replacement(m, vars).value;
      StepSpells(c, m, r, ms);
      StepUncrossed(c, m, r, ms);
      StepSize(c, m, r);
      RewriteSpells(Step(c, m, r), ms, n + 1, vars, size);
    }
  }

  // ---------------------------------------------------------------- quiet steps

  /** The spelling is that of some placeholders and occurs nowhere else. */
  ghost predicate Quiet(c: Chain, m: Placeholder) {
    !Contains(c.run, m.Text()) && (c.Link? ==> !NestedIn(m, c.p) && Quiet(c.rest, m))
  }

  lemma {:induction false} StepSize(c: Chain, m: Placeholder, r: string)
    requires |m.Text()| < |r|
    ensures Size(Step(c, m, r), |r|) >= Size(c, |r|)
    ensures !Quiet(c, m) ==> Size(Step(c, m, r), |r|) > Size(c, |r|)
  {
    ReplaceSize(c.run, m.Text(), r);
    if c.Link? {
      StepSize(c.rest, m, r);
    }
  }

  /** `Fill` as a chain. */
  ghost function FillChain(c: Chain, done: set<Placeholder>, vars: Variables): Chain {
    match c
    case Last(run) => c
    case Link(run, p, rest) =>
      if p in done && Replacement(p, vars).Some? then
        Glue(run + Replacement(p, vars).value, FillChain(rest, done, vars))
      else Link(run, p, FillChain(rest, done, vars))
  }

  lemma QuietToken(run: string, p: Placeholder, m: Placeholder)
    requires p.Valid() && m.Valid() && !NestedIn(m, p)
    ensures EndsWith(p.Text(), m.Text()) <==> p == m
    ensures p == m ==> run + Before(p, m) == run
  {
    if EndsWith(p.Text(), m.Text()) {
      SameSpelling(p, m);
    }
  }

  /** A quiet step only fills in. */
  lemma {:induction false} QuietStep(c: Chain, m: Placeholder, vars: Variables, ms: seq<Placeholder>)
    requires Quiet(c, m) && Uncrossed(c, ms) && m.Valid()
    requires Replacement(m, vars).Some? && |m.Text()| < |Replacement(m, vars).value|
    ensures Step(c, m, Replacement(m, vars).value) == FillChain(c, {m}, vars)
  {
    hide ReplaceAll, Contains, Lies, Replacement, EndsWith, Before, NestedIn;
    var r := Replacement(m, vars).value;
    ReplaceSize(c.run, m.Text(), r);
    if c.Link? {
      QuietStep(c.rest, m, vars, ms);
      QuietToken(c.run, c.p, m);
    }
  }

  lemma FillChainGlue(text: string, c: Chain, done: set<Placeholder>, vars: Variables)
    ensures FillChain(Glue(text, c), done, vars) == Glue(text, FillChain(c, done, vars))
  {
    if c.Link? && c.p in done && Replacement(c.p, vars).Some? {
      GlueTwice(text, c.run, Replacement(c.p, vars).value, FillChain(c.rest, done, vars));
    }
  }

  lemma GlueTwice(a: string, b: string, d: string, c: Chain)
    ensures Glue((a + b) + d, c) == Glue(a, Glue(b + d, c))
  {
    Reassociate(a, b, d);
    Reassociate(a, b + d, c.run);
  }

  lemma {:induction false} FillMore(c: Chain, done: set<Placeholder>, m: Placeholder, vars: Variables)
    ensures FillChain(FillChain(c, done, vars), {m}, vars) == FillChain(c, done + {m}, vars)
  {
    if c.Link? {
      FillMore(c.rest, done, m, vars);
      if c.p in done && Replacement(c.p, vars).Some? {
        FillChainGlue(c.run + Replacement(c.p, vars).value, FillChain(c.rest, done, vars), {m}, vars);
      }
    }
  }

  lemma {:induction false} FillChainSize(c: Chain, done: set<Placeholder>, vars: Variables,
                                         ms: seq<Placeholder>, size: nat)
    requires Uncrossed(c, ms) && LongValues(ms, vars, size) && forall p :: p in done ==> p in ms
    ensures Size(FillChain(c, done, vars), size) == Size(c, size)
    ensures Uncrossed(FillChain(c, done, vars), ms)
  {
    if c.Link? {
      FillChainSize(c.rest, done, vars, ms, size);
      if c.p in done {
        GlueUncrossed(c.run, Replacement(c.p, vars).value, FillChain(c.rest, done, vars), ms);
      }
    }
  }

  lemma {:induction false} FillChainNothing(c: Chain, vars: Variables)
    ensures FillChain(c, {}, vars) == c
  {
    if c.Link? {
      FillChainNothing(c.rest, vars);
    }
  }
}
