/** Resolution of `${variable.name}` and `${variable.name:-default}` references.

    The resolver collects the matches of the original string and then rewrites a copy of
    it once per match, replacing every occurrence of that match's spelling. What users
    are promised is a single simultaneous substitution. The two agree for inert values
    unless some literal text, once the placeholder after it is gone, can become the start
    of a placeholder that is still to be replaced, or a placeholder still to be replaced
    contains the spelling of an earlier match. */
module VariableResolver {
  import opened Interference
  import opened Placeholders
  import opened Sequences
  import opened Text
  import opened Wrappers

  type Variables = map<string, string>

  // ---------------------------------------------------------------- specification

  /** A template: literal runs with placeholders between them. */
  datatype Chain = Last(run: string) | Link(run: string, p: Placeholder, rest: Chain) {
    function Spell(): string {
      if Last? then run else run + (p.Text() + rest.Spell())
    }

    function Tokens(): seq<Placeholder> {
      if Last? then [] else [p] + rest.Tokens()
    }

    /** The runs; the one at an index is followed by the placeholder at that index. */
    function Runs(): seq<string> {
      if Last? then [run] else [run] + rest.Runs()
    }
  }

  function Glue(text: string, c: Chain): Chain {
    match c
    case Last(run) => Last(text + run)
    case Link(run, p, rest) => Link(text + run, p, rest)
  }

  function Parse(s: string): Chain
    decreases |s|
  {
    if s == "" then Last("")
    else
      match MatchAt(s)
      case Some(p) => Link("", p, Parse(s[|p.Text()|..]))
      case None => Glue([s[0]], Parse(s[1..]))
  }

  function Replacement(p: Placeholder, vars: Variables): Option<string> {
    if p.name in vars then Some(vars[p.name]) else p.default
  }

  ghost predicate Resolvable(input: string, vars: Variables) {
    forall p :: p in Matches(input) ==> Replacement(p, vars).Some?
  }

  /** Simultaneous substitution, reading the input once from left to right: each placeholder
      gives way to its value, and neither the values nor the text around them are looked
      at again. */
  ghost function OnePass(s: string, vars: Variables): string
    decreases |s|
  {
    if s == "" then ""
    else
      match MatchAt(s)
      case Some(p) =>
        (if Replacement(p, vars).Some? then Replacement(p, vars).value else p.Text())
        + OnePass(s[|p.Text()|..], vars)
      case None => [s[0]] + OnePass(s[1..], vars)
  }

  /** The template with the placeholders of `done` filled in. */
  ghost function Fill(c: Chain, done: set<Placeholder>, vars: Variables): string {
    match c
    case Last(run) => run
    case Link(run, p, rest) =>
      run + ((if p in done && Replacement(p, vars).Some? then Replacement(p, vars).value else p.Text())
             + Fill(rest, done, vars))
  }

  /** What the rewriting loop computes for a list of matches. */
  function Rewrite(text: string, ms: seq<Placeholder>, vars: Variables): string
    decreases |ms|
  {
    if ms == [] then text
    else
      var r := Replacement(ms[0], vars);
      Rewrite(if r.Some? then ReplaceAll(text, ms[0].Text(), r.value) else text, ms[1..], vars)
  }

  function UndefinedMessage(name: string): string {
    "undefined variable: " + name
  }

  /** One message for each unresolvable occurrence, in order of appearance. */
  function Undefined(ms: seq<Placeholder>, vars: Variables): seq<string> {
    if ms == [] then []
    else
      (if Replacement(ms[0], vars).Some? then [] else [UndefinedMessage(ms[0].name)])
      + Undefined(ms[1..], vars)
  }

  /** A non-empty end of the run is a beginning of the placeholder's spelling. */
  predicate Seam(run: string, p: Placeholder) {
    exists n :: 0 <= n < |run| && run[n..] <= p.Text()
  }

  /** Some run, once the placeholder after it has given way, can begin the spelling of a
      match whose turn comes later. */
  predicate SpellsAhead(input: string) {
    var ms, runs := Parse(input).Tokens(), Parse(input).Runs();
    exists i, k, j :: 0 <= k < j < |ms| && 0 <= i < |ms| && i < |runs| && ms[i] == ms[k] && Seam(runs[i], ms[j])
  }

  predicate EndsWith(s: string, suffix: string) {
    |suffix| <= |s| && s[|s| - |suffix|..] == suffix
  }

  /** The spelling of `m` is hidden in the default of `p`. */
  predicate NestedIn(m: Placeholder, p: Placeholder) {
    |m.Text()| < |p.Text()| && EndsWith(p.Text(), m.Text())
  }

  /** Some match hides another one whose turn comes first. */
  predicate Nests(input: string) {
    var ms := Matches(input);
    exists j, k :: 0 <= j < k < |ms| && ms[k] !in ms[..j] && NestedIn(ms[j], ms[k])
  }

  /** No placeholder hides a second start inside itself. */
  ghost predicate CalmInside(input: string) {
    forall p :: p in Matches(input) ==> Inert(p.Text()[1..])
  }

  /** Literal runs are inert, and so are placeholders after their first character. */
  ghost predicate CalmTemplate(input: string) {
    CalmInside(input) && forall run :: run in Parse(input).Runs() ==> Inert(run)
  }

  /** All values and defaults that the input uses are inert. */
  ghost predicate CalmValues(input: string, vars: Variables) {
    forall p :: p in Matches(input) && Replacement(p, vars).Some? ==> Inert(Replacement(p, vars).value)
  }

  // ---------------------------------------------------------------- templates as chains

  /** The parse spells the input, its placeholders are the matches, and no placeholder is
      spelled within a run. */
  lemma {:induction false} ParseIsInput(s: string)
    ensures Parse(s).Spell() == s && Parse(s).Tokens() == Matches(s) && Scanned(Parse(s))
    decreases |s|
  {
    if s != "" {
      match MatchAt(s)
      case Some(p) =>
        var rest := s[|p.Text()|..];
        ParseIsInput(rest);
        assert s == p.Text() + rest;
      case None =>
        ParseIsInput(s[1..]);
        GlueScanned(s, Parse(s[1..]));
    }
  }

  /** No placeholder is spelled from within the run, even with what follows it. */
  ghost predicate NoneFrom(run: string, next: string) {
    forall o :: 0 <= o < |run| ==> MatchAt(run[o..] + next) == None
  }

  ghost predicate Scanned(c: Chain) {
    match c
    case Last(run) => NoneFrom(run, "")
    case Link(run, p, rest) => p.Valid() && NoneFrom(run, p.Text()) && Scanned(rest)
  }

  /** And it is the only reading of its text of this kind: the leftmost matches, which do not
      overlap. */
  lemma {:induction false} ParseIsUnique(c: Chain)
    requires Scanned(c)
    ensures Parse(c.Spell()) == c
    decreases |c.Spell()|
  {
    hide MatchAt, Scanned, Placeholder.Text;
    if c.run != "" {
      var shorter := c.(run := c.run[1..]);
      ScannedTail(c);
      SpellTail(c);
      ParseIsUnique(shorter);
      assert [c.run[0]] + c.run[1..] == c.run;
    } else if c.Link? {
      ScannedRest(c);
      ParseAtRef(c.p, c.rest.Spell());
      ParseIsUnique(c.rest);
      assert "" + (c.p.Text() + c.rest.Spell()) == c.p.Text() + c.rest.Spell();
    }
  }

  lemma SpellTail(c: Chain)
    requires c.run != ""
    ensures c.Spell() != "" && c.Spell()[0] == c.run[0] && c.Spell()[1..] == c.(run := c.run[1..]).Spell()
  {
  }

  lemma ScannedRest(c: Chain)
    requires Scanned(c) && c.Link?
    ensures c.p.Valid() && Scanned(c.rest) && c.p.Text() != "" && |c.rest.Spell()| < |c.Spell()|
  {
  }

  lemma ParseAtRef(p: Placeholder, tail: string)
    requires p.Valid()
    ensures Parse(p.Text() + tail) == Link("", p, Parse(tail))
  {
    var s := p.Text() + tail;
    MatchIffSpelled(s, p);
    assert s[|p.Text()|..] == tail;
  }

  lemma ScannedTail(c: Chain)
    requires Scanned(c) && c.run != ""
    ensures c.Spell() != "" && MatchAt(c.Spell()) == None && Scanned(c.(run := c.run[1..]))
  {
    var run := c.run;
    var next := if c.Last? then "" else c.p.Text();
    assert run[0..] == run;
    assert forall o :: 0 <= o < |run[1..]| ==> run[1..][o..] == run[o + 1..];
    if c.Last? {
      assert run + "" == run;
    } else if MatchAt(c.Spell()).Some? {
      var q := MatchAt(c.Spell()).value;
      OneBrace(c.p);
      Reassociate(run, c.p.Text(), c.rest.Spell());
      BraceEnds(run + c.p.Text(), c.rest.Spell(), q);
      MatchIffSpelled(run + c.p.Text(), q);
    }
  }

  lemma GlueScanned(s: string, c: Chain)
    requires s != "" && MatchAt(s) == None && s[1..] == c.Spell() && Scanned(c)
    ensures Glue([s[0]], c).Spell() == s
    ensures Glue([s[0]], c).Tokens() == c.Tokens()
    ensures Scanned(Glue([s[0]], c))
  {
    assert s == [s[0]] + c.Spell();
    match c {
      case Last(run) =>
        FirstScanned(s, run, "", "");
      case Link(run, p, rest) =>
        FirstScanned(s, run, p.Text(), rest.Spell());
    }
  }

  lemma FirstScanned(s: string, run: string, next: string, tail: string)
    requires s != "" && MatchAt(s) == None && s == [s[0]] + (run + (next + tail)) && NoneFrom(run, next)
    ensures NoneFrom([s[0]] + run, next) && s == ([s[0]] + run) + (next + tail)
  {
    var longer := [s[0]] + run;
    Reassociate([s[0]], run, next + tail);
    Reassociate(longer, next, tail);
    forall o | 0 <= o < |longer|
      ensures MatchAt(longer[o..] + next) == None
    {
      if o == 0 {
        assert longer[0..] == longer;
        NoMatchInPrefix(longer + next, s);
      } else {
        assert longer[o..] == run[o - 1..];
      }
    }
  }

  lemma NoMatchInPrefix(u: string, s: string)
    requires u <= s && MatchAt(s) == None
    ensures MatchAt(u) == None
  {
    if MatchAt(u).Some? {
      MatchIffSpelled(s, MatchAt(u).value);
    }
  }

  lemma FillGlue(text: string, c: Chain, done: set<Placeholder>, vars: Variables)
    ensures Fill(Glue(text, c), done, vars) == text + Fill(c, done, vars)
  {
    if c.Link? {
      var value := if c.p in done && Replacement(c.p, vars).Some? then Replacement(c.p, vars).value else c.p.Text();
      Reassociate(text, c.run, value + Fill(c.rest, done, vars));
    }
  }

  /** Filling in all placeholders of the parse is the left-to-right substitution. */
  lemma {:induction false} OnePassIsFill(s: string, done: set<Placeholder>, vars: Variables)
    requires forall p :: p in Matches(s) ==> p in done
    ensures OnePass(s, vars) == Fill(Parse(s), done, vars)
    decreases |s|
  {
    if s != "" {
      match MatchAt(s)
      case Some(p) =>
        OnePassIsFill(s[|p.Text()|..], done, vars);
        assert p in Matches(s);
      case None =>
        OnePassIsFill(s[1..], done, vars);
        FillGlue([s[0]], Parse(s[1..]), done, vars);
    }
  }

  lemma {:induction false} FillNothing(c: Chain, vars: Variables)
    ensures Fill(c, {}, vars) == c.Spell()
  {
    if c.Link? {
      FillNothing(c.rest, vars);
    }
  }

  // ---------------------------------------------------------------- one rewriting step

  lemma SkipInert(w: string, tail: string, p: Placeholder, r: string)
    requires Inert(w) && p.Valid()
    ensures ReplaceAll(w + tail, p.Text(), r) == w + ReplaceAll(tail, p.Text(), r)
  {
    forall i | 0 <= i < |w|
      ensures !(p.Text() <= w[i..] + tail)
    {
      InertSuffix(w, i);
      NoMatchInInert(w[i..], tail, p);
    }
    SkipFree(w, tail, p.Text(), r);
  }

  /** A placeholder has one closing brace, at its end. */
  lemma OneBrace(p: Placeholder)
    requires p.Valid()
    ensures forall i :: 0 <= i < |p.Text()| ==> (p.Text()[i] == '}' <==> i == |p.Text()| - 1)
  {
    var body := OPEN + p.name + (if p.default.Some? then ":-" + p.default.value else "");
    assert p.Text() == body + "}";
    assert '}' !in OPEN && '}' !in p.name;
    assert '}' !in body;
  }

  /** So a placeholder spelled at the start of a text ends with the first brace. */
  lemma BraceEnds(x: string, tail: string, m: Placeholder)
    requires m.Valid() && x != "" && x[|x| - 1] == '}' && m.Text() <= x + tail
    ensures m.Text() <= x
  {
    OneBrace(m);
    assert (x + tail)[|x| - 1] == '}';
  }

  lemma SpelledInside(q: Placeholder, i: nat, tail: string, m: Placeholder)
    requires q.Valid() && m.Valid() && i < |q.Text()|
    requires m.Text() <= q.Text()[i..] + tail
    ensures EndsWith(q.Text(), m.Text()) && q.Text()[i..] == m.Text()
  {
    var x := q.Text()[i..];
    OneBrace(q);
    OneBrace(m);
    BraceEnds(x, tail, m);
    assert x[|m.Text()| - 1] == q.Text()[i + |m.Text()| - 1];
  }

  lemma SameSpelling(p: Placeholder, m: Placeholder)
    requires p.Valid() && m.Valid() && EndsWith(p.Text(), m.Text())
    ensures p == m || NestedIn(m, p)
  {
    if |p.Text()| == |m.Text()| {
      assert p.Text()[0..] == p.Text();
      PrefixFree(m, p);
    }
  }

  lemma SkipOther(q: Placeholder, tail: string, m: Placeholder, r: string)
    requires q.Valid() && m.Valid() && m != q && !NestedIn(m, q)
    ensures ReplaceAll(q.Text() + tail, m.Text(), r) == q.Text() + ReplaceAll(tail, m.Text(), r)
  {
    forall i | 0 <= i < |q.Text()|
      ensures !(m.Text() <= q.Text()[i..] + tail)
    {
      if m.Text() <= q.Text()[i..] + tail {
        SpelledInside(q, i, tail, m);
        SameSpelling(q, m);
      }
    }
    SkipFree(q.Text(), tail, m.Text(), r);
  }

  lemma HidingIsNotCalm(p: Placeholder, m: Placeholder)
    requires m.Valid() && NestedIn(m, p)
    ensures !Inert(p.Text()[1..])
  {
    var k := |p.Text()| - |m.Text()|;
    assert p.Text()[1..][k - 1..] == p.Text()[k..];
    PrefixIsLive(p.Text()[k..], m, "");
  }

  lemma PrefixIsLive(u: string, q: Placeholder, tail: string)
    requires q.Valid() && u <= q.Text() + tail
    ensures Live(u)
  {
    Comparable(u, q.Text(), q.Text() + tail);
  }

  /** Up to a placeholder that has not been replaced, nothing is spelled from within a run. */
  lemma SkipRunBeforeRef(run: string, q: Placeholder, tail: string, m: Placeholder, r: string)
    requires q.Valid() && m.Valid() && NoneFrom(run, q.Text())
    ensures ReplaceAll(run + (q.Text() + tail), m.Text(), r) == run + ReplaceAll(q.Text() + tail, m.Text(), r)
  {
    forall o | 0 <= o < |run|
      ensures !(m.Text() <= run[o..] + (q.Text() + tail))
    {
      if m.Text() <= run[o..] + (q.Text() + tail) {
        Reassociate(run[o..], q.Text(), tail);
        OneBrace(q);
        BraceEnds(run[o..] + q.Text(), tail, m);
        MatchIffSpelled(run[o..] + q.Text(), m);
      }
    }
    SkipFree(run, q.Text() + tail, m.Text(), r);
  }

  lemma SpelledAcross(run: string, o: nat, before: string, next: string, m: Placeholder)
    requires NoneFrom(run, before) && m.Valid() && o < |run| && m.Text() <= run[o..] + next
    ensures next != "" && Seam(run, m)
  {
    MatchIffSpelled(run[o..] + before, m);
    Comparable(run[o..], m.Text(), run[o..] + next);
    assert run[o..] <= m.Text();
  }

  /** Before a replaced one, only a seam can take part in a spelling. */
  lemma SkipRunWithoutSeam(run: string, before: string, next: string, m: Placeholder, r: string)
    requires NoneFrom(run, before) && m.Valid() && (next == "" || !Seam(run, m))
    ensures ReplaceAll(run + next, m.Text(), r) == run + ReplaceAll(next, m.Text(), r)
  {
    forall o | 0 <= o < |run|
      ensures !(m.Text() <= run[o..] + next)
    {
      if m.Text() <= run[o..] + next {
        SpelledAcross(run, o, before, next, m);
      }
    }
    SkipFree(run, next, m.Text(), r);
  }

  /** The runs before filled placeholders do not begin the spelling of `m`, and the
      placeholders that remain do not hide it. */
  ghost predicate Clear(c: Chain, done: set<Placeholder>, m: Placeholder) {
    c.Link? ==> (if c.p in done then !Seam(c.run, m) else !NestedIn(m, c.p)) && Clear(c.rest, done, m)
  }

  ghost predicate FillsInert(done: set<Placeholder>, vars: Variables) {
    forall p :: p in done ==> Replacement(p, vars).Some? && Inert(Replacement(p, vars).value)
  }

  /** Replacing one spelling everywhere touches the placeholders spelled that way and
      nothing else. */
  lemma {:induction false} StepIsLocal(c: Chain, done: set<Placeholder>, m: Placeholder, vars: Variables)
    requires m.Valid() && Scanned(c) && Clear(c, done, m) && FillsInert(done + {m}, vars)
    ensures ReplaceAll(Fill(c, done, vars), m.Text(), Replacement(m, vars).value) == Fill(c, done + {m}, vars)
  {
    hide Inert, NoneFrom, Seam, NestedIn, Replacement;
    var r := Replacement(m, vars).value;
    match c {
      case Last(run) =>
        assert run + "" == run;
        SkipRunWithoutSeam(run, "", "", m, r);
      case Link(run, p, rest) =>
        StepIsLocal(rest, done, m, vars);
        var tail := Fill(rest, done, vars);
        if p in done {
          SkipRunWithoutSeam(run, p.Text(), Replacement(p, vars).value + tail, m, r);
          SkipInert(Replacement(p, vars).value, tail, m, r);
        } else {
          SkipRunBeforeRef(run, p, tail, m, r);
          if p == m {
            assert (m.Text() + tail)[|m.Text()|..] == tail;
          } else {
            SkipOther(p, tail, m, r);
          }
        }
    }
  }

  // ---------------------------------------------------------------- the whole loop

  /** After `n` matches the placeholders spelled like them are filled in and all else is as
      it was. */
  lemma {:induction false} LoopIsOnePass(c: Chain, ms: seq<Placeholder>, n: nat, vars: Variables)
    requires n <= |ms| && Scanned(c) && FillsInert(Elements(ms), vars)
    requires forall p :: p in ms ==> p.Valid()
    requires forall k :: 0 <= k < |ms| ==> Clear(c, Elements(ms[..k]), ms[k])
    ensures Rewrite(Fill(c, Elements(ms[..n]), vars), ms[n..], vars) == Fill(c, Elements(ms), vars)
    decreases |ms| - n
  {
    hide Scanned, Clear, Inert, Fill, ReplaceAll;
    if n == |ms| {
      assert ms[..n] == ms;
    } else {
      assert Elements(ms[..n]) + {ms[n]} == Elements(ms[..n + 1]);
      assert ms[n] in ms && ms[n..][1..] == ms[n + 1..];
      StepIsLocal(c, Elements(ms[..n]), ms[n], vars);
      LoopIsOnePass(c, ms, n + 1, vars);
    }
  }

  lemma {:induction false} MatchesAreValid(s: string)
    ensures forall p :: p in Matches(s) ==> p.Valid()
    decreases |s|
  {
    if s != "" {
      match MatchAt(s)
      case Some(p) => MatchesAreValid(s[|p.Text()|..]);
      case None => MatchesAreValid(s[1..]);
    }
  }

  lemma {:induction false} ClearIfSeparate(c: Chain, done: set<Placeholder>, m: Placeholder)
    requires forall i :: 0 <= i < |c.Tokens()| && i < |c.Runs()| ==>
               if c.Tokens()[i] in done then !Seam(c.Runs()[i], m) else !NestedIn(m, c.Tokens()[i])
    ensures Clear(c, done, m)
  {
    if c.Link? {
      assert c.Tokens()[0] == c.p && c.Runs()[0] == c.run;
      assert c.Tokens()[1..] == c.rest.Tokens() && c.Runs()[1..] == c.rest.Runs();
      forall i | 0 <= i < |c.rest.Tokens()| && i < |c.rest.Runs()|
        ensures if c.rest.Tokens()[i] in done then !Seam(c.rest.Runs()[i], m) else !NestedIn(m, c.rest.Tokens()[i])
      {
        assert c.Tokens()[i + 1] == c.rest.Tokens()[i] && c.Runs()[i + 1] == c.rest.Runs()[i];
      }
      ClearIfSeparate(c.rest, done, m);
    }
  }

  lemma NoSeamAtTurn(input: string, i: nat, n: nat)
    requires !SpellsAhead(input) && i < |Parse(input).Runs()|
    requires i < |Parse(input).Tokens()| && n < |Parse(input).Tokens()|
    requires Parse(input).Tokens()[i] in Parse(input).Tokens()[..n]
    ensures !Seam(Parse(input).Runs()[i], Parse(input).Tokens()[n])
  {
    var ms := Parse(input).Tokens();
    var k :| 0 <= k < n && ms[..n][k] == ms[i];
    assert 0 <= k < n < |ms| && ms[i] == ms[k];
  }

  lemma NoNestAtTurn(input: string, i: nat, n: nat)
    requires !Nests(input) && i < |Matches(input)| && n < |Matches(input)|
    requires Matches(input)[i] !in Matches(input)[..n]
    ensures !NestedIn(Matches(input)[n], Matches(input)[i])
  {
    var ms := Matches(input);
    assert forall k :: 0 <= k < n ==> ms[k] in ms[..n];
  }

  lemma ClearAtItsTurn(input: string, n: nat)
    requires !SpellsAhead(input) && !Nests(input) && n < |Matches(input)|
    ensures Clear(Parse(input), Elements(Matches(input)[..n]), Matches(input)[n])
  {
    hide SpellsAhead, Nests, Seam, NestedIn, Parse, Matches;
    ParseIsInput(input);
    var c, ms := Parse(input), Matches(input);
    forall i | 0 <= i < |ms| && i < |c.Runs()|
      ensures if ms[i] in Elements(ms[..n]) then !Seam(c.Runs()[i], ms[n]) else !NestedIn(ms[n], ms[i])
    {
      if ms[i] in ms[..n] {
        NoSeamAtTurn(input, i, n);
      } else {
        NoNestAtTurn(input, i, n);
      }
    }
    ClearIfSeparate(c, Elements(ms[..n]), ms[n]);
  }

  /** The rewriting loop is the one-pass substitution for inert values and every template
      that neither spells ahead nor nests, whatever the number, order and repetition of its
      placeholders. */
  lemma RewriteIsOnePass(input: string, vars: Variables)
    requires !SpellsAhead(input) && !Nests(input)
    requires CalmValues(input, vars) && Resolvable(input, vars)
    ensures Rewrite(input, Matches(input), vars) == OnePass(input, vars)
  {
    var c, ms := Parse(input), Matches(input);
    ParseIsInput(input);
    MatchesAreValid(input);
    FillNothing(c, vars);
    assert Elements(ms[..0]) == {} && ms[0..] == ms;
    assert FillsInert(Elements(ms), vars);
    forall n | 0 <= n < |ms|
      ensures Clear(c, Elements(ms[..n]), ms[n])
    {
      ClearAtItsTurn(input, n);
    }
    LoopIsOnePass(c, ms, 0, vars);
    OnePassIsFill(input, Elements(ms), vars);
  }

  lemma SeamIsLive(run: string, p: Placeholder)
    requires p.Valid() && Seam(run, p)
    ensures !Inert(run)
  {
    var n :| 0 <= n < |run| && run[n..] <= p.Text();
    assert Live(run[n..]);
  }

  /** An inert run begins no placeholder, so calm templates neither spell ahead nor nest. */
  lemma CalmIsSeparate(input: string)
    requires CalmTemplate(input)
    ensures !SpellsAhead(input) && !Nests(input)
  {
    ParseIsInput(input);
    MatchesAreValid(input);
    CalmHasNoSeams(Parse(input).Tokens(), Parse(input).Runs());
    CalmInsideNestsNothing(input);
  }

  lemma CalmInsideNestsNothing(input: string)
    requires CalmInside(input)
    ensures !Nests(input)
  {
    MatchesAreValid(input);
    if Nests(input) {
      var ms := Matches(input);
      var j, k :| 0 <= j < k < |ms| && ms[k] !in ms[..j] && NestedIn(ms[j], ms[k]);
      HidingIsNotCalm(ms[k], ms[j]);
    }
  }

  lemma CalmHasNoSeams(ms: seq<Placeholder>, runs: seq<string>)
    requires forall run :: run in runs ==> Inert(run)
    requires forall p :: p in ms ==> p.Valid()
    ensures forall i, j :: 0 <= i < |runs| && 0 <= j < |ms| ==> !Seam(runs[i], ms[j])
  {
    forall i, j | 0 <= i < |runs| && 0 <= j < |ms|
      ensures !Seam(runs[i], ms[j])
    {
      assert runs[i] in runs && ms[j] in ms;
      if Seam(runs[i], ms[j]) {
        SeamIsLive(runs[i], ms[j]);
      }
    }
  }

  lemma {:induction false} InertFill(c: Chain, done: set<Placeholder>, vars: Variables)
    requires forall run :: run in c.Runs() ==> Inert(run)
    requires FillsInert(done, vars) && forall p :: p in c.Tokens() ==> p in done
    ensures Inert(Fill(c, done, vars))
  {
    assert c.Runs()[0] == c.run;
    if c.Link? {
      assert c.Runs()[1..] == c.rest.Runs() && c.Tokens()[1..] == c.rest.Tokens() && c.Tokens()[0] == c.p;
      InertFill(c.rest, done, vars);
      InertConcat(Replacement(c.p, vars).value, Fill(c.rest, done, vars));
      InertConcat(c.run, Replacement(c.p, vars).value + Fill(c.rest, done, vars));
    }
  }

  /** A resolved string has nothing left to resolve, under any variables. */
  lemma ResolvedIsFinal(input: string, vars: Variables, others: Variables)
    requires CalmTemplate(input) && CalmValues(input, vars) && Resolvable(input, vars)
    ensures var r := Rewrite(input, Matches(input), vars);
            Matches(r) == [] && Rewrite(r, Matches(r), others) == r
  {
    CalmIsSeparate(input);
    RewriteIsOnePass(input, vars);
    ParseIsInput(input);
    var done := Elements(Matches(input));
    OnePassIsFill(input, done, vars);
    InertFill(Parse(input), done, vars);
    InertHasNoMatches(OnePass(input, vars));
  }

  // ---------------------------------------------------------------- the resolver

  /** What one more match does to the text: its value, or else its default, takes the place
      of every occurrence of its spelling. */
  lemma {:induction false} RewriteNext(text: string, ms: seq<Placeholder>, m: Placeholder, vars: Variables)
    ensures Rewrite(text, [], vars) == text
    ensures Rewrite(text, ms + [m], vars)
         == var sofar := Rewrite(text, ms, vars);
            if m.name in vars then ReplaceAll(sofar, m.Text(), vars[m.name])
            else match m.default
                 case Some(d) => ReplaceAll(sofar, m.Text(), d)
                 case None => sofar
    decreases |ms|
  {
    if ms == [] {
      assert ms + [m] == [m] && [m][1..] == [];
    } else {
      var r := Replacement(ms[0], vars);
      assert (ms + [m])[1..] == ms[1..] + [m];
      RewriteNext(if r.Some? then ReplaceAll(text, ms[0].Text(), r.value) else text, ms[1..], m, vars);
    }
  }

  /** One message, with the name, for each match that has neither a value nor a default. */
  lemma {:induction false} UndefinedNext(ms: seq<Placeholder>, m: Placeholder, vars: Variables)
    ensures Undefined([], vars) == []
    ensures Undefined(ms + [m], vars) == Undefined(ms, vars)
              + if m.name in vars || m.default.Some? then [] else ["undefined variable: " + m.name]
  {
    if ms == [] {
      assert ms + [m] == [m] && [m][1..] == [];
    } else {
      assert (ms + [m])[1..] == ms[1..] + [m];
      UndefinedNext(ms[1..], m, vars);
    }
  }

  lemma {:induction false} UndefinedIffUnresolvable(ms: seq<Placeholder>, vars: Variables)
    ensures Undefined(ms, vars) == [] <==> forall p :: p in ms ==> Replacement(p, vars).Some?
  {
    if ms != [] {
      UndefinedIffUnresolvable(ms[1..], vars);
      assert forall p :: p in ms <==> p == ms[0] || p in ms[1..];
    }
  }

  lemma WholePlaceholder(p: Placeholder, vars: Variables)
    requires p.Valid()
    ensures Matches(p.Text()) == [p]
    ensures Rewrite(p.Text(), [p], vars)
         == if p.name in vars then vars[p.name] else match p.default { case Some(d) => d case None => p.Text() }
    ensures Undefined([p], vars)
         == if p.name in vars || p.default.Some? then [] else ["undefined variable: " + p.name]
  {
    var f := p.Text();
    MatchIffSpelled(f, p);
    assert f[|f|..] == "" && [] + [p] == [p];
    forall r: string
      ensures ReplaceAll(f, f, r) == r
    {
      assert r + "" == r;
    }
    RewriteNext(f, [], p, vars);
    UndefinedNext([], p, vars);
  }

  ghost predicate IsReference(text: string, name: string) {
    IsName(name) && text == "${variable." + name + "}"
  }

  ghost predicate IsReferenceWithDefault(text: string, name: string, default: string) {
    IsName(name) && '}' !in default && text == "${variable." + name + ":-" + default + "}"
  }

  /** A reference yields the value of its variable, or else is an error that names it. */
  lemma ReferenceResolves(text: string, name: string, vars: Variables)
    requires IsReference(text, name)
    ensures Matches(text) == [Placeholder(name, None)]
    ensures name in vars ==> Undefined(Matches(text), vars) == []
                             && Rewrite(text, Matches(text), vars) == vars[name]
    ensures name !in vars ==> Undefined(Matches(text), vars) == ["undefined variable: " + name]
  {
    var p := Placeholder(name, None);
    ValidIffWritten(p);
    TextIsWritten(p);
    WholePlaceholder(p, vars);
  }

  /** A reference with a default yields the value of its variable, or else the default. */
  lemma ReferenceWithDefaultResolves(text: string, name: string, default: string, vars: Variables)
    requires IsReferenceWithDefault(text, name, default)
    ensures Matches(text) == [Placeholder(name, Some(default))]
    ensures Undefined(Matches(text), vars) == []
    ensures Rewrite(text, Matches(text), vars) == if name in vars then vars[name] else default
  {
    var p := Placeholder(name, Some(default));
    ValidIffWritten(p);
    TextIsWritten(p);
    WholePlaceholder(p, vars);
  }

  /** The result of a text that is one reference and nothing else. */
  ghost predicate ReferenceYields(input: string, vars: Variables, r: Result<string, string>) {
    && (forall name :: IsReference(input, name) ==>
          r == if name in vars then Ok(vars[name]) else Err("undefined variable: " + name))
    && (forall name, default :: IsReferenceWithDefault(input, name, default) ==>
          r == Ok(if name in vars then vars[name] else default))
  }

  lemma ReferenceIsResolved(input: string, vars: Variables, r: Result<string, string>)
    requires var errors := Undefined(Matches(input), vars);
             r == if errors == [] then Ok(Rewrite(input, Matches(input), vars)) else Err(Join(errors, ", "))
    ensures ReferenceYields(input, vars, r)
  {
    forall name | IsReference(input, name)
      ensures r == if name in vars then Ok(vars[name]) else Err("undefined variable: " + name)
    {
      ReferenceResolves(input, name, vars);
    }
    forall name, default | IsReferenceWithDefault(input, name, default)
      ensures r == Ok(if name in vars then vars[name] else default)
    {
      ReferenceWithDefaultResolves(input, name, default, vars);
    }
  }

  method Resolve(input: string, vars: Variables) returns (r: Result<string, string>)
    ensures r.Ok? <==> Resolvable(input, vars)
    ensures r.Err? ==> r.error == Join(Undefined(Matches(input), vars), ", ")
    ensures r.Ok? && !SpellsAhead(input) && !Nests(input) && CalmValues(input, vars)
            ==> r.value == OnePass(input, vars)
    ensures r.Ok? ==> r.value == Rewrite(input, Matches(input), vars)
    ensures ReferenceYields(input, vars, r)
  {
    hide ReferenceYields;
    var result := input;
    var errors: seq<string> := [];
    var matches := Matches(input);
    for i := 0 to |matches|
      invariant result == Rewrite(input, matches[..i], vars)
      invariant errors == Undefined(matches[..i], vars)
    {
      var m := matches[i];
      assert matches[..i + 1] == matches[..i] + [m];
      RewriteNext(input, matches[..i], m, vars);
      UndefinedNext(matches[..i], m, vars);
      if m.name in vars {
        result := ReplaceAll(result, m.Text(), vars[m.name]);
      } else if m.default.Some? {
        result := ReplaceAll(result, m.Text(), m.default.value);
      } else {
        errors := errors + [UndefinedMessage(m.name)];
      }
    }
    assert matches[..|matches|] == matches;
    UndefinedIffUnresolvable(matches, vars);
    if errors != [] {
      r := Err(Join(errors, ", "));
      ReferenceIsResolved(input, vars, r);
      return;
    }
    ReferenceIsResolved(input, vars, Ok(result));
    if !SpellsAhead(input) && !Nests(input) && CalmValues(input, vars) {
      RewriteIsOnePass(input, vars);
    }
    return Ok(result);
  }

  /** Resolves every value of an environment map. Entries come in an arbitrary order, so
      with several bad entries any one of them may be the one reported. */
  method ResolveEnvironment(env: map<string, string>, vars: Variables)
      returns (r: Result<map<string, string>, string>)
    ensures r.Ok? <==> forall k :: k in env ==> Resolvable(env[k], vars)
    ensures r.Ok? ==> r.value.Keys == env.Keys
    ensures r.Ok? ==> forall k :: k in env ==> r.value[k] == Rewrite(env[k], Matches(env[k]), vars)
    ensures r.Ok? ==> forall k :: k in env && !SpellsAhead(env[k]) && !Nests(env[k]) && CalmValues(env[k], vars)
                                  ==> r.value[k] == OnePass(env[k], vars)
    ensures r.Err? ==> exists k :: k in env && !Resolvable(env[k], vars)
                                   && r.error == Join(Undefined(Matches(env[k]), vars), ", ")
  {
    var resolved: map<string, string> := map[];
    var remaining := env.Keys;
    while remaining != {}
      invariant remaining <= env.Keys && resolved.Keys == env.Keys - remaining
      invariant forall k :: k in resolved ==>
                  Resolvable(env[k], vars) && resolved[k] == Rewrite(env[k], Matches(env[k]), vars)
      invariant forall k :: k in resolved && !SpellsAhead(env[k]) && !Nests(env[k]) && CalmValues(env[k], vars)
                            ==> resolved[k] == OnePass(env[k], vars)
      decreases remaining
    {
      var k :| k in remaining;
      remaining := remaining - {k};
      var value := Resolve(env[k], vars);
      if value.Err? {
        return Err(value.error);
      }
      resolved := resolved[k := value.value];
    }
    return Ok(resolved);
  }

  /** Variables with a default, overridden and extended by explicit values. */
  method FromMortarWithOverrides(defaults: map<string, Option<string>>, overrides: map<string, string>)
      returns (vars: Variables)
    ensures forall name :: name in vars <==>
              name in overrides || (name in defaults && defaults[name].Some?)
    ensures forall name :: name in vars ==>
              vars[name] == if name in overrides then overrides[name] else defaults[name].value
  {
    vars := map name | name in defaults && defaults[name].Some? :: defaults[name].value;
    ghost var initial := vars;
    var remaining := overrides.Keys;
    while remaining != {}
      invariant remaining <= overrides.Keys
      invariant vars.Keys == initial.Keys + (overrides.Keys - remaining)
      invariant forall name :: name in vars ==>
        vars[name] == if name in overrides && name !in remaining then overrides[name] else initial[name]
      decreases remaining
    {
      var name :| name in remaining;
      remaining := remaining - {name};
      vars := vars[name := overrides[name]];
    }
  }
}
