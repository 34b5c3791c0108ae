/**
 * The detection and scoring engine that both copies in the source share: a
 * catalog of rules is tried in order against a text, every rule that hits is
 * reported once with its number of occurrences, and the weighted occurrences
 * are turned into a 0..100 density score. The module is parameterised by the
 * catalog, by the weight of each severity, and by the host's regular-expression
 * engine; modules Patterns and Rewrite instantiate it.
 */
module Engine {
  import opened Wrappers
  import Matching

  datatype Severity = High | Medium | Low

  /** A catalog entry, as far as detection and scoring read it. */
  datatype Pattern = Pattern(id: string, pattern: string, severity: Severity, description: string)

  /**
   * The host's regular-expression engine: whether `new RegExp(src, 'g')`
   * compiles (rather than throwing), and how many matches
   * `text.matchAll` then yields.
   */
  datatype Regex = Regex(compiles: string -> bool, countMatches: (string, string) -> nat)

  /**
   * The engine agrees with the fragment of module Matching on every source
   * the fragment parses, for sources and texts within the Basic Multilingual
   * Plane. Outside it the host matches UTF-16 code units (a pattern without
   * the `u` flag sees a surrogate pair as two characters) while module
   * Matching matches characters, so no agreement is claimed there.
   */
  ghost predicate Conforms(re: Regex) {
    && (forall src :: Matching.Bmp(src) && Matching.Parse(src).Some? ==> re.compiles(src))
    && (forall src, text :: Matching.Bmp(src) && Matching.Bmp(text) && Matching.Parse(src).Some? ==>
          re.countMatches(src, text) == Matching.Count(Matching.Parse(src).value, text))
  }

  /** An engine that knows only the fragment: every other source fails to compile, so its rule takes the fallback path. */
  function FragmentEngine(): (re: Regex)
    ensures Conforms(re)
    ensures forall src :: re.compiles(src) <==> Matching.Parse(src).Some?
  {
    Regex(src => Matching.Parse(src).Some?,
          (src, text) => match Matching.Parse(src) case Some(atoms) => Matching.Count(atoms, text) case None => 0)
  }

  /**
   * How a rule fared on a text: its expression compiled and matched `count`
   * times, or compiling threw and the rule's own text occurs in the text.
   */
  datatype Outcome = Matched(count: nat) | Fallback

  datatype Hit = Hit(pattern: Pattern, outcome: Outcome)

  /** One step of the loop over the catalog; None when the rule is not reported. */
  function Test(re: Regex, p: Pattern, text: string): (r: Option<Outcome>)
    ensures r.Some? && r.value.Matched? ==> re.compiles(p.pattern) && r.value.count == re.countMatches(p.pattern, text) > 0
    ensures r == Some(Fallback) ==> !re.compiles(p.pattern) && exists i: nat :: Matching.OccursAt(text, p.pattern, i)
    ensures r.None? <==> if re.compiles(p.pattern) then re.countMatches(p.pattern, text) == 0 else !Matching.Contains(text, p.pattern)
  {
    if re.compiles(p.pattern) then
      var n := re.countMatches(p.pattern, text);
      if n > 0 then Some(Matched(n)) else None
    else if Matching.Contains(text, p.pattern) then Some(Fallback)
    else None
  }

  /**
   * The loop over the catalog, generic in the record it builds for each
   * reported rule: the catalog is walked in order and a record is appended
   * for every rule that hits.
   */
  function Collect<R>(re: Regex, catalog: seq<Pattern>, text: string, make: (Pattern, Outcome) -> R): (r: seq<R>)
    ensures |r| <= |catalog|
    decreases |catalog|
  {
    if catalog == [] then []
    else
      var rest := Collect(re, catalog[..|catalog| - 1], text, make);
      match Test(re, catalog[|catalog| - 1], text)
      case None => rest
      case Some(o) => rest + [make(catalog[|catalog| - 1], o)]
  }

  function MakeHit(p: Pattern, o: Outcome): Hit {
    Hit(p, o)
  }

  /** The engine's own record of a detection: the rule and its outcome. */
  function Hits(re: Regex, catalog: seq<Pattern>, text: string): (r: seq<Hit>)
    ensures |r| <= |catalog|
    ensures catalog == [] ==> r == []
  {
    Collect(re, catalog, text, MakeHit)
  }

  /** The catalog positions of the rules that hit, in catalog order. */
  function HitIndices(re: Regex, catalog: seq<Pattern>, text: string): seq<nat>
    decreases |catalog|
  {
    if catalog == [] then []
    else
      HitIndices(re, catalog[..|catalog| - 1], text)
        + if Test(re, catalog[|catalog| - 1], text).Some? then [|catalog| - 1] else []
  }

  /** Every instantiation of the loop builds its records from the same hits, in the same order. */
  lemma {:induction false} CollectIsMap<R>(re: Regex, catalog: seq<Pattern>, text: string, make: (Pattern, Outcome) -> R)
    ensures |Collect(re, catalog, text, make)| == |Hits(re, catalog, text)|
    ensures forall k :: 0 <= k < |Hits(re, catalog, text)| ==>
              Collect(re, catalog, text, make)[k] == make(Hits(re, catalog, text)[k].pattern, Hits(re, catalog, text)[k].outcome)
    decreases |catalog|
  {
    if catalog != [] {
      CollectIsMap(re, catalog[..|catalog| - 1], text, make);
    }
  }

  /**
   * Detection is the catalog filtered by "the rule hits": the result lists,
   * at strictly increasing catalog positions, exactly the rules whose test
   * succeeds, each with the outcome of its test.
   */
  lemma {:induction false} HitsAreFilteredCatalog(re: Regex, catalog: seq<Pattern>, text: string)
    ensures |Hits(re, catalog, text)| == |HitIndices(re, catalog, text)|
    ensures forall k :: 0 <= k < |HitIndices(re, catalog, text)| ==>
              && HitIndices(re, catalog, text)[k] < |catalog|
              && Test(re, catalog[HitIndices(re, catalog, text)[k]], text).Some?
              && Hits(re, catalog, text)[k]
                 == Hit(catalog[HitIndices(re, catalog, text)[k]], Test(re, catalog[HitIndices(re, catalog, text)[k]], text).value)
    ensures forall k, l :: 0 <= k < l < |HitIndices(re, catalog, text)| ==>
              HitIndices(re, catalog, text)[k] < HitIndices(re, catalog, text)[l]
    ensures forall i :: 0 <= i < |catalog| ==> (i in HitIndices(re, catalog, text) <==> Test(re, catalog[i], text).Some?)
    decreases |catalog|
  {
    if catalog != [] {
      var init := catalog[..|catalog| - 1];
      HitsAreFilteredCatalog(re, init, text);
      assert forall i :: 0 <= i < |init| ==> init[i] == catalog[i];
      var ix0 := HitIndices(re, init, text);
      assert forall k :: 0 <= k < |ix0| ==> ix0[k] < |init|;
    }
  }

  /** When no rule hits, nothing is reported. */
  lemma {:induction false} NoHits(re: Regex, catalog: seq<Pattern>, text: string)
    requires forall i :: 0 <= i < |catalog| ==> Test(re, catalog[i], text).None?
    ensures Hits(re, catalog, text) == []
    decreases |catalog|
  {
    if catalog != [] {
      var init := catalog[..|catalog| - 1];
      assert forall i :: 0 <= i < |init| ==> init[i] == catalog[i];
      NoHits(re, init, text);
    }
  }

  /** When exactly one rule of the catalog hits, detection reports that rule alone. */
  lemma {:induction false} SingleHit(re: Regex, catalog: seq<Pattern>, text: string, j: nat)
    requires j < |catalog| && Test(re, catalog[j], text).Some?
    requires forall i :: 0 <= i < |catalog| && i != j ==> Test(re, catalog[i], text).None?
    ensures Hits(re, catalog, text) == [Hit(catalog[j], Test(re, catalog[j], text).value)]
    decreases |catalog|
  {
    var init := catalog[..|catalog| - 1];
    assert forall i :: 0 <= i < |init| ==> init[i] == catalog[i];
    if j == |catalog| - 1 {
      NoHits(re, init, text);
    } else {
      SingleHit(re, init, text, j);
    }
  }

  /**
   * What a reported rule carries: a compiled rule always at least one match,
   * namely the engine's full count; a rule that failed to compile is reported
   * only when its text occurs in the input.
   */
  lemma HitOutcomes(re: Regex, catalog: seq<Pattern>, text: string)
    ensures forall h :: h in Hits(re, catalog, text) ==>
              && h.pattern in catalog
              && (h.outcome.Matched? <==> re.compiles(h.pattern.pattern))
              && (h.outcome.Matched? ==> h.outcome.count >= 1 && h.outcome.count == re.countMatches(h.pattern.pattern, text))
              && (h.outcome.Fallback? ==> Matching.Contains(text, h.pattern.pattern))
  {
    HitsAreFilteredCatalog(re, catalog, text);
    var hs, ix := Hits(re, catalog, text), HitIndices(re, catalog, text);
    forall h | h in hs
      ensures h.pattern in catalog
    {
      var k :| 0 <= k < |hs| && hs[k] == h;
      assert h.pattern == catalog[ix[k]];
    }
  }

  /** Under a conforming engine a rule without syntax is reported exactly when `includes` would find its text. */
  lemma LiteralRuleHits(re: Regex, p: Pattern, text: string)
    requires Conforms(re) && Matching.NoSyntax(p.pattern) && Matching.Bmp(p.pattern) && Matching.Bmp(text)
    ensures Test(re, p, text).Some? <==> Matching.Contains(text, p.pattern)
    ensures Test(re, p, text).Some? ==> Test(re, p, text).value.Matched?
  {
    Matching.ParseLiteral(p.pattern);
    Matching.LiteralCountIffContains(p.pattern, text);
  }

  /** Under a conforming engine a rule without syntax whose text occurs at exactly one position is reported with one match. */
  lemma LiteralRuleOnce(re: Regex, p: Pattern, text: string, i: nat)
    requires Conforms(re) && Matching.NoSyntax(p.pattern) && Matching.Bmp(p.pattern) && Matching.Bmp(text)
    requires p.pattern != [] && Matching.OccursAt(text, p.pattern, i)
    requires forall j: nat :: Matching.OccursAt(text, p.pattern, j) ==> j == i
    ensures Test(re, p, text) == Some(Matched(1))
  {
    Matching.ParseLiteral(p.pattern);
    Matching.CountLiteralOnce(p.pattern, text, i);
  }

  /** Under a conforming engine a rule in the fragment reports the number of matches the global scan counts. */
  lemma FragmentRuleCounts(re: Regex, p: Pattern, text: string, atoms: seq<Matching.Atom>, n: nat)
    requires Conforms(re) && Matching.Bmp(p.pattern) && Matching.Bmp(text)
    requires Matching.Parse(p.pattern) == Some(atoms) && Matching.Count(atoms, text) == n && n > 0
    ensures Test(re, p, text) == Some(Matched(n))
  {
  }

  /** Under a conforming engine a non-empty rule without syntax finds itself exactly once. */
  lemma LiteralRuleFindsItself(re: Regex, p: Pattern)
    requires Conforms(re) && Matching.NoSyntax(p.pattern) && Matching.Bmp(p.pattern) && p.pattern != []
    ensures Test(re, p, p.pattern) == Some(Matched(1))
  {
    Matching.ParseLiteral(p.pattern);
    Matching.CountLiteralSelf(p.pattern);
  }

  /** The sources on which `Conforms` pins the engine down: in the fragment and in the Basic Multilingual Plane. */
  predicate Covered(src: string) {
    Matching.Bmp(src) && Matching.Parse(src).Some?
  }

  /** A rule whose source is non-empty and does not end in `?`. */
  predicate PlainRule(p: Pattern) {
    p.pattern != [] && p.pattern[|p.pattern| - 1] != '?'
  }

  /**
   * No plain rule hits the empty text: in the fragment it must consume a
   * character, on the fallback path its text is not a substring of "", and
   * a compiled rule the fragment does not cover is assumed to find nothing there.
   */
  lemma PlainRuleMissesEmpty(re: Regex, p: Pattern)
    requires Conforms(re) && PlainRule(p)
    requires !Covered(p.pattern) ==> re.countMatches(p.pattern, "") == 0
    ensures Test(re, p, "").None?
  {
    if Covered(p.pattern) {
      Matching.ParseMandatory(p.pattern);
      Matching.CountEmpty(Matching.Parse(p.pattern).value);
      assert Matching.Bmp("");
    }
    assert !Matching.OccursAt("", p.pattern, 0);
  }

  /** Every rule of a catalog is plain. */
  predicate AllPlain(catalog: seq<Pattern>) {
    forall i :: 0 <= i < |catalog| ==> PlainRule(catalog[i])
  }

  lemma AllPlainAppend(a: seq<Pattern>, b: seq<Pattern>)
    requires AllPlain(a) && AllPlain(b)
    ensures AllPlain(a + b)
  {
    assert forall i :: |a| <= i < |a + b| ==> (a + b)[i] == b[i - |a|];
  }

  /** Detection on the empty text reports nothing when every rule is plain. */
  lemma EmptyTextNoHits(re: Regex, catalog: seq<Pattern>)
    requires Conforms(re) && AllPlain(catalog)
    requires forall i :: 0 <= i < |catalog| && !Covered(catalog[i].pattern) ==> re.countMatches(catalog[i].pattern, "") == 0
    ensures Hits(re, catalog, "") == []
  {
    forall i | 0 <= i < |catalog|
      ensures Test(re, catalog[i], "").None?
    {
      PlainRuleMissesEmpty(re, catalog[i]);
    }
    NoHits(re, catalog, "");
  }

  /** How many occurrences a hit stands for: its match count, or one for a fallback hit. */
  function Occurrences(o: Outcome): (n: nat)
    ensures n >= 1 <==> o.Fallback? || o.count >= 1
  {
    match o
    case Matched(n) => n
    case Fallback => 1
  }

  /** The un-normalised score: the weighted occurrences of the hits. */
  function RawScore(weight: Severity -> nat, hits: seq<Hit>): (r: nat)
    ensures hits == [] ==> r == 0
    decreases |hits|
  {
    if hits == [] then 0
    else RawScore(weight, hits[..|hits| - 1])
           + weight(hits[|hits| - 1].pattern.severity) * Occurrences(hits[|hits| - 1].outcome)
  }

  /** The raw score is positive exactly when some hit carries positive weight and at least one occurrence. */
  lemma {:induction false} RawScorePositive(weight: Severity -> nat, hits: seq<Hit>)
    ensures RawScore(weight, hits) > 0 <==>
      exists i :: 0 <= i < |hits| && weight(hits[i].pattern.severity) * Occurrences(hits[i].outcome) > 0
    decreases |hits|
  {
    if hits != [] {
      var front := hits[..|hits| - 1];
      RawScorePositive(weight, front);
      if RawScore(weight, front) > 0 {
        var i :| 0 <= i < |front| && weight(front[i].pattern.severity) * Occurrences(front[i].outcome) > 0;
        assert hits[i] == front[i];
      }
      if exists i :: 0 <= i < |hits| && weight(hits[i].pattern.severity) * Occurrences(hits[i].outcome) > 0 {
        var i :| 0 <= i < |hits| && weight(hits[i].pattern.severity) * Occurrences(hits[i].outcome) > 0;
        if i < |front| {
          assert front[i] == hits[i];
        }
      }
    }
  }

  /** The raw score is additive over the hit list. */
  lemma {:induction false} RawScoreAppend(weight: Severity -> nat, a: seq<Hit>, b: seq<Hit>)
    ensures RawScore(weight, a + b) == RawScore(weight, a) + RawScore(weight, b)
    decreases |b|
  {
    if b != [] {
      assert (a + b)[..|a + b| - 1] == a + b[..|b| - 1];
      assert (a + b)[|a + b| - 1] == b[|b| - 1];
      RawScoreAppend(weight, a, b[..|b| - 1]);
    } else {
      assert a + b == a;
    }
  }

  /** Each hit contributes `weight(severity) * occurrences`, so the raw score is at least each single contribution. */
  lemma {:induction false} RawScoreCovers(weight: Severity -> nat, hits: seq<Hit>, k: nat)
    requires k < |hits|
    ensures RawScore(weight, hits) >= weight(hits[k].pattern.severity) * Occurrences(hits[k].outcome)
    decreases |hits|
  {
    if k < |hits| - 1 {
      RawScoreCovers(weight, hits[..|hits| - 1], k);
    }
  }

  /** Two weightings that agree on the severities that occur give the same raw score. */
  lemma {:induction false} RawScoreAgrees(w1: Severity -> nat, w2: Severity -> nat, hits: seq<Hit>)
    requires forall k :: 0 <= k < |hits| ==> w1(hits[k].pattern.severity) == w2(hits[k].pattern.severity)
    ensures RawScore(w1, hits) == RawScore(w2, hits)
    decreases |hits|
  {
    if hits != [] {
      RawScoreAgrees(w1, w2, hits[..|hits| - 1]);
    }
  }

  /** The sum of `points` over a list of records: the accumulator of the source's scoring loops. */
  function Total<R>(rs: seq<R>, points: R -> nat): nat
    decreases |rs|
  {
    if rs == [] then 0 else Total(rs[..|rs| - 1], points) + points(rs[|rs| - 1])
  }

  /**
   * A scoring loop over the records of an instantiation computes the raw
   * score of the hits, provided each record is worth its hit's weighted
   * occurrences.
   */
  lemma {:induction false} TotalOfCollect<R>(re: Regex, catalog: seq<Pattern>, text: string,
                                             make: (Pattern, Outcome) -> R, points: R -> nat, weight: Severity -> nat)
    requires forall p: Pattern, o: Outcome :: (o.Fallback? || o.count > 0) ==> points(make(p, o)) == weight(p.severity) * Occurrences(o)
    ensures Total(Collect(re, catalog, text, make), points) == RawScore(weight, Hits(re, catalog, text))
    decreases |catalog|
  {
    if catalog != [] {
      TotalOfCollect(re, catalog[..|catalog| - 1], text, make, points, weight);
      var rs := Collect(re, catalog[..|catalog| - 1], text, make);
      var hs := Hits(re, catalog[..|catalog| - 1], text);
      match Test(re, catalog[|catalog| - 1], text)
      case None =>
      case Some(o) =>
        assert (rs + [make(catalog[|catalog| - 1], o)])[..|rs|] == rs;
        assert (hs + [Hit(catalog[|catalog| - 1], o)])[..|hs|] == hs;
    }
  }

  /**
   * `Math.round(num / den)` for a non-negative quotient, in exact arithmetic:
   * the integer nearest to `num / den`, halves rounded up.
   */
  function RoundHalfUp(num: nat, den: nat): (r: nat)
    requires den > 0
    ensures den * (2 * r) <= 2 * num + den < den * (2 * r + 2)
  {
    var q := (2 * num + den) / (2 * den);
    assert 2 * num + den == (2 * den) * q + (2 * num + den) % (2 * den);
    q
  }

  function Min(a: nat, b: nat): nat {
    if a <= b then a else b
  }

  /**
   * `Math.min(100, Math.round(raw / (len / 1000) * 2))`, with an early 0 for
   * the empty text: weighted occurrences per thousand characters, doubled,
   * rounded and capped.
   */
  function Normalize(raw: nat, len: nat): (s: nat)
    ensures s <= 100
    ensures len == 0 ==> s == 0
    ensures len > 0 ==> (s == 100 <==> 4000 * raw >= 199 * len)
    ensures len > 0 && s < 100 ==> len * (2 * s) <= 4000 * raw + len < len * (2 * s + 2)
  {
    if len == 0 then 0
    else
      var r := RoundHalfUp(2000 * raw, len);
      assert r >= 100 ==> len * 200 <= len * (2 * r) by {
        if r >= 100 { MulLe(len, 200, 2 * r); }
      }
      assert r < 100 ==> len * (2 * r + 2) <= len * 200 by {
        if r < 100 { MulLe(len, 2 * r + 2, 200); }
      }
      Min(100, r)
  }

  /** More weighted occurrences never lower the score. */
  lemma NormalizeMonotone(raw1: nat, raw2: nat, len: nat)
    requires raw1 <= raw2
    ensures Normalize(raw1, len) <= Normalize(raw2, len)
  {
    if len > 0 {
      var s1, s2 := RoundHalfUp(2000 * raw1, len), RoundHalfUp(2000 * raw2, len);
      if s2 < s1 {
        assert len * (2 * s2 + 2) <= len * (2 * s1) by { MulLe(len, 2 * s2 + 2, 2 * s1); }
      }
    }
  }

  /** The same weighted occurrences in a longer text never raise the score: it is a density. */
  lemma NormalizeDensity(raw: nat, len1: nat, len2: nat)
    requires 0 < len1 <= len2
    ensures Normalize(raw, len2) <= Normalize(raw, len1)
  {
    var a := 4000 * raw;
    var r1, r2 := RoundHalfUp(2000 * raw, len1), RoundHalfUp(2000 * raw, len2);
    if r1 < r2 {
      MulSucc(len1, 2 * r1 + 1);
      MulSucc(len2, 2 * r2 - 1);
      assert a < len1 * (2 * r1 + 1);
      assert len2 * (2 * r2 - 1) <= a;
      MulLe(2 * r1 + 1, len1, len2);
      MulLe(len2, 2 * r1 + 1, 2 * r2 - 1);
      assert false;
    }
  }

  lemma MulSucc(a: nat, b: nat)
    ensures a * (b + 1) == a * b + a
  {
  }

  lemma MulLe(a: nat, b: nat, c: nat)
    requires b <= c
    ensures a * b <= a * c && b * a <= c * a
  {
  }

  /** `text.length`: the number of UTF-16 code units, two for a character outside the Basic Multilingual Plane. */
  function Utf16Length(s: string): (n: nat)
    ensures |s| <= n <= 2 * |s|
    decreases |s|
  {
    if s == [] then 0 else Utf16Length(s[..|s| - 1]) + (if s[|s| - 1] as int >= 0x1_0000 then 2 else 1)
  }

  /** For text within the Basic Multilingual Plane, `text.length` is the number of characters. */
  lemma {:induction false} Utf16LengthBmp(s: string)
    requires Matching.Bmp(s)
    ensures Utf16Length(s) == |s|
    decreases |s|
  {
    if s != [] {
      Utf16LengthBmp(s[..|s| - 1]);
    }
  }
}
