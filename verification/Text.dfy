/** String operations of the standard library: replace-all, join and split. */
module Text {

  /** Replaces the non-overlapping occurrences of `pattern`, found from the left. */
  function ReplaceAll(s: string, pattern: string, repl: string): string
    requires pattern != ""
    decreases |s|
  {
    if s == "" then ""
    else if pattern <= s then repl + ReplaceAll(s[|pattern|..], pattern, repl)
    else [s[0]] + ReplaceAll(s[1..], pattern, repl)
  }

  /** Where no occurrence starts, the text stays. */
  lemma {:induction false} SkipFree(w: string, tail: string, pattern: string, repl: string)
    requires pattern != ""
    requires forall i :: 0 <= i < |w| ==> !(pattern <= w[i..] + tail)
    ensures ReplaceAll(w + tail, pattern, repl) == w + ReplaceAll(tail, pattern, repl)
    decreases |w|
  {
    if w == "" {
      assert w + tail == tail;
    } else {
      var rest := w[1..];
      assert w[0..] == w;
      forall i | 0 <= i < |rest|
        ensures !(pattern <= rest[i..] + tail)
      {
        assert rest[i..] == w[i + 1..];
      }
      SkipFree(rest, tail, pattern, repl);
      TakeFirst(w, tail, pattern, repl);
    }
  }

  lemma TakeFirst(w: string, tail: string, pattern: string, repl: string)
    requires w != "" && pattern != "" && !(pattern <= w + tail)
    ensures ReplaceAll(w + tail, pattern, repl) == [w[0]] + ReplaceAll(w[1..] + tail, pattern, repl)
    ensures forall z: string :: [w[0]] + (w[1..] + z) == w + z
  {
    assert (w + tail)[1..] == w[1..] + tail && (w + tail)[0] == w[0];
  }

  function Join(parts: seq<string>, sep: string): string {
    if parts == [] then ""
    else if |parts| == 1 then parts[0]
    else parts[0] + sep + Join(parts[1..], sep)
  }

  /** The separator stands between parts, and nowhere else. */
  lemma {:induction false} JoinNext(parts: seq<string>, part: string, sep: string)
    ensures Join([], sep) == ""
    ensures Join(parts + [part], sep) == if parts == [] then part else Join(parts, sep) + sep + part
  {
    if |parts| > 1 {
      var rest := parts[1..];
      assert (parts + [part])[1..] == rest + [part];
      JoinNext(rest, part, sep);
      assert Join(parts + [part], sep) == parts[0] + sep + (Join(rest, sep) + sep + part);
    } else if parts != [] {
      assert (parts + [part])[1..] == [part];
    }
  }

  lemma {:induction false} RemovalShrinks(s: string, pattern: string)
    requires pattern != ""
    ensures |ReplaceAll(s, pattern, "")| <= |s|
    decreases |s|
  {
    if s == "" {
    } else if pattern <= s {
      RemovalShrinks(s[|pattern|..], pattern);
    } else {
      RemovalShrinks(s[1..], pattern);
    }
  }

  /** `f` has no proper suffix that is also one of its prefixes. */
  ghost predicate SelfOverlapFree(f: string) {
    forall k :: 0 < k < |f| ==> !(f[k..] <= f)
  }

  lemma OverlapIsBorder(before: string, f: string, after: string)
    requires 0 < |before| < |f|
    requires f <= before + f + after
    ensures f[|before|..] <= f
  {
    var s := before + f + after;
    var k := |before|;
    assert f[k..] == s[k..|f|];
    assert s[k..|f|] == f[..|f| - k];
  }

  /** An occurrence that starts before another one of a pattern that cannot overlap
      itself also ends before it. */
  lemma OccurrencesApart(before: string, f: string, after: string)
    requires f != "" && SelfOverlapFree(f) && before != ""
    ensures f <= before + f + after <==> f <= before
  {
    var s := before + f + after;
    if f <= s && |before| < |f| {
      OverlapIsBorder(before, f, after);
    }
    assert |before| >= |f| ==> s[..|f|] == before[..|f|];
  }

  /** A pattern that cannot overlap itself splits the text at any of its occurrences. */
  lemma {:induction false} ReplaceAround(before: string, f: string, after: string, repl: string)
    requires f != "" && SelfOverlapFree(f)
    ensures ReplaceAll(before + f + after, f, repl) == ReplaceAll(before, f, repl) + repl + ReplaceAll(after, f, repl)
    decreases |before|
  {
    if before == "" {
      assert before + f + after == f + after && (f + after)[|f|..] == after;
    } else if f <= before {
      var rest := before[|f|..];
      ReplaceFirst(before, f, after, repl);
      ReplaceAround(rest, f, after, repl);
      Regroup(repl, ReplaceAll(rest, f, repl), repl, ReplaceAll(after, f, repl));
    } else {
      var rest := before[1..];
      OccurrencesApart(before, f, after);
      KeepFirst(before, f, after, repl);
      ReplaceAround(rest, f, after, repl);
      Regroup([before[0]], ReplaceAll(rest, f, repl), repl, ReplaceAll(after, f, repl));
    }
  }

  lemma Regroup(a: string, b: string, c: string, d: string)
    ensures a + (b + c + d) == (a + b) + c + d
  {
  }

  lemma KeepFirst(before: string, f: string, after: string, repl: string)
    requires before != "" && f != "" && !(f <= before + f + after)
    ensures ReplaceAll(before + f + after, f, repl) == [before[0]] + ReplaceAll(before[1..] + f + after, f, repl)
  {
    var s := before + f + after;
    assert s[1..] == before[1..] + f + after && s[0] == before[0];
  }

  lemma ReplaceFirst(before: string, f: string, after: string, repl: string)
    requires f != "" && f <= before
    ensures ReplaceAll(before + f + after, f, repl) == repl + ReplaceAll(before[|f|..] + f + after, f, repl)
  {
    var s := before + f + after;
    assert s[..|f|] == before[..|f|];
    assert s[|f|..] == before[|f|..] + f + after;
  }
  // ---------------------------------------------------------------- split and join

  ghost predicate Contains(s: string, sep: string) {
    exists i :: 0 <= i <= |s| && sep <= s[i..]
  }

  /** The parts between the non-overlapping occurrences of `sep`, found from the left. */
  function Split(s: string, sep: string): (parts: seq<string>)
    requires sep != ""
    ensures |parts| >= 1
    decreases |s|
  {
    if s == "" then [""]
    else if sep <= s then [""] + Split(s[|sep|..], sep)
    else
      var parts := Split(s[1..], sep);
      [[s[0]] + parts[0]] + parts[1..]
  }

  /** An occurrence is at the front or in the tail. */
  lemma ContainsTail(s: string, sep: string)
    requires s != "" && sep != ""
    ensures Contains(s, sep) <==> sep <= s || Contains(s[1..], sep)
  {
    assert s[0..] == s;
    if i :| 0 <= i <= |s| && sep <= s[i..] {
      assert i > 0 ==> s[i..] == s[1..][i - 1..];
    }
    if i :| 0 <= i <= |s[1..]| && sep <= s[1..][i..] {
      assert s[1..][i..] == s[i + 1..];
    }
  }

  lemma {:induction false} SplitPartsAreFree(s: string, sep: string)
    requires sep != ""
    ensures Split(s, sep)[0] <= s
    ensures forall part :: part in Split(s, sep) ==> !Contains(part, sep)
    decreases |s|
  {
    if s == "" {
    } else if sep <= s {
      SplitPartsAreFree(s[|sep|..], sep);
    } else {
      var parts := Split(s[1..], sep);
      SplitPartsAreFree(s[1..], sep);
      var first := [s[0]] + parts[0];
      assert first <= s;
      assert first[0..] == first && first[1..] == parts[0];
      if Contains(first, sep) {
        ContainsTail(first, sep);
      }
    }
  }

  /** A part without the separator is split off whole: the separator that follows it is the
      first one found, even when the part ends like a separator begins. */
  lemma {:induction false} SplitOff(part: string, sep: string, rest: string)
    requires sep != "" && SelfOverlapFree(sep) && !Contains(part, sep)
    ensures Split(part + sep + rest, sep) == [part] + Split(rest, sep)
    decreases |part|
  {
    var s := part + sep + rest;
    if part == "" {
      assert s == sep + rest && s[|sep|..] == rest;
    } else {
      OccurrencesApart(part, sep, rest);
      ContainsTail(part, sep);
      assert s[1..] == part[1..] + sep + rest;
      SplitOff(part[1..], sep, rest);
      assert [s[0]] + part[1..] == part;
    }
  }

  lemma {:induction false} SplitWhole(part: string, sep: string)
    requires sep != "" && !Contains(part, sep)
    ensures Split(part, sep) == [part]
    decreases |part|
  {
    if part != "" {
      ContainsTail(part, sep);
      SplitWhole(part[1..], sep);
      assert [part[0]] + part[1..] == part;
    }
  }

  lemma {:induction false} SplitJoin(parts: seq<string>, sep: string)
    requires sep != "" && SelfOverlapFree(sep) && parts != []
    requires forall part :: part in parts ==> !Contains(part, sep)
    ensures Split(Join(parts, sep), sep) == parts
  {
    if |parts| == 1 {
      SplitWhole(parts[0], sep);
    } else {
      SplitOff(parts[0], sep, Join(parts[1..], sep));
      SplitJoin(parts[1..], sep);
    }
  }

  /** Splitting undoes joining exactly for non-empty lists whose parts are free of the
      separator. */
  lemma SplitInvertsJoinIff(parts: seq<string>, sep: string)
    requires sep != "" && SelfOverlapFree(sep)
    ensures Split(Join(parts, sep), sep) == parts
            <==> parts != [] && forall part :: part in parts ==> !Contains(part, sep)
  {
    SplitPartsAreFree(Join(parts, sep), sep);
    if parts != [] && forall part :: part in parts ==> !Contains(part, sep) {
      SplitJoin(parts, sep);
    }
  }

  /** Joining undoes splitting, for every separator and every text. */
  lemma {:induction false} JoinInvertsSplit(s: string, sep: string)
    requires sep != ""
    ensures Join(Split(s, sep), sep) == s
  {
    ReplaceIsSplitJoin(s, sep, sep);
    ReplaceBySelf(s, sep);
  }

  lemma {:induction false} ReplaceBySelf(s: string, pattern: string)
    requires pattern != ""
    ensures ReplaceAll(s, pattern, pattern) == s
    decreases |s|
  {
    if s == "" {
    } else if pattern <= s {
      var rest := s[|pattern|..];
      ReplaceBySelf(rest, pattern);
      assert s == pattern + rest;
    } else {
      ReplaceBySelf(s[1..], pattern);
      assert s == [s[0]] + s[1..];
    }
  }

  /** Replacing is splitting at the pattern and joining with the replacement. */
  lemma {:induction false} ReplaceIsSplitJoin(s: string, pattern: string, repl: string)
    requires pattern != ""
    ensures ReplaceAll(s, pattern, repl) == Join(Split(s, pattern), repl)
    decreases |s|
  {
    if s == "" {
    } else if pattern <= s {
      ReplaceIsSplitJoin(s[|pattern|..], pattern, repl);
      JoinAfterEmpty(Split(s[|pattern|..], pattern), repl);
    } else {
      ReplaceIsSplitJoin(s[1..], pattern, repl);
      JoinPrepend(s[0], Split(s[1..], pattern), repl);
    }
  }

  lemma JoinAfterEmpty(parts: seq<string>, sep: string)
    requires parts != []
    ensures Join([""] + parts, sep) == sep + Join(parts, sep)
  {
    assert ([""] + parts)[1..] == parts && "" + sep == sep;
  }

  lemma JoinPrepend(c: char, parts: seq<string>, sep: string)
    requires parts != []
    ensures Join([[c] + parts[0]] + parts[1..], sep) == [c] + Join(parts, sep)
  {
    var longer := [[c] + parts[0]] + parts[1..];
    assert longer[1..] == parts[1..];
    if |parts| > 1 {
      Regroup([c], parts[0], sep, Join(parts[1..], sep));
    }
  }
}
