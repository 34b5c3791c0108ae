/**
 * The canonical cliché catalog of lib/patterns.ts and its two operations,
 * `detectPatterns` and `calculateAIScore`, as the loops the source runs,
 * each proved equal to the engine of module Engine instantiated with this
 * file's record shape and weights.
 */
module Patterns {
  import opened Wrappers
  import opened Engine
  import Matching
  import MatchingExamples

  /** 对立句式: "not X but Y" contrasts */
  const ZH_CONTRAST: seq<Pattern> := [
    /*  0 */ Pattern("zh001", "不是[^，。]+而是", High, "\"不是...而是...\"句式"),
    /*  1 */ Pattern("zh002", "并不是[^，。]+而是", High, "\"并不是...而是...\""),
    /*  2 */ Pattern("zh003", "与其说[^，。]+不如说", Medium, "\"与其说...不如说...\"")
  ]

  /** 总结排比: summarising formulas */
  const ZH_SUMMARY: seq<Pattern> := [
    /*  3 */ Pattern("zh004", "简单[一来]说", High, "\"简单来说/简单一句话\""),
    /*  4 */ Pattern("zh005", "一句话[概总]括", High, "\"一句话概括\""),
    /*  5 */ Pattern("zh006", "总[的而]言之", High, "\"总而言之/总的来说\""),
    /*  6 */ Pattern("zh007", "综上所述", High, "\"综上所述\"")
  ]

  /** 缓和语: pragmatic cushions */
  const ZH_HEDGES: seq<Pattern> := [
    /*  7 */ Pattern("zh008", "值得注意的是", High, "\"值得注意的是\""),
    /*  8 */ Pattern("zh009", "需要[指强]调的是", High, "\"需要指出/强调的是\""),
    /*  9 */ Pattern("zh010", "不可否认", Medium, "\"不可否认\"")
  ]

  /** 元叙述: meta-narration */
  const ZH_META: seq<Pattern> := [
    /* 10 */ Pattern("zh011", "让我[们来]深入", High, "\"让我们深入探讨\""),
    /* 11 */ Pattern("zh012", "接下来[我让]", Medium, "\"接下来我会...\""),
    /* 12 */ Pattern("zh013", "换句话说", Medium, "\"换句话说\""),
    /* 13 */ Pattern("zh014", "说白了", Medium, "\"说白了\"口语化压缩")
  ]

  /** 油腻表达: buzzwords */
  const ZH_BUZZWORDS: seq<Pattern> := [
    /* 14 */ Pattern("zh015", "兜住", High, "\"兜住\""),
    /* 15 */ Pattern("zh016", "接住", High, "\"接住\""),
    /* 16 */ Pattern("zh017", "收敛", Medium, "\"收敛\"（非数学语境）"),
    /* 17 */ Pattern("zh018", "坍缩", Medium, "\"坍缩\"（非物理语境）"),
    /* 18 */ Pattern("zh019", "张力", Medium, "\"张力\"滥用")
  ]

  /** 自我修正: statements about the writer's own mood */
  const ZH_SELF_CORRECTION: seq<Pattern> := [
    /* 19 */ Pattern("zh020", "我现在可以[冷平]静", High, "模型声明自己的情绪状态"),
    /* 20 */ Pattern("zh021", "我换个[^，。]*语气", High, "声明要换语气")
  ]

  /** 排比递进 and 过渡词: escalation and transitions */
  const ZH_ESCALATION: seq<Pattern> := [
    /* 21 */ Pattern("zh022", "这不仅仅是[^，。]+更是", High, "\"不仅仅是...更是...\""),
    /* 22 */ Pattern("zh023", "不仅[^，。]+而且", Medium, "\"不仅...而且...\"过度使用"),
    /* 23 */ Pattern("zh024", "事实上", Medium, "\"事实上\""),
    /* 24 */ Pattern("zh025", "毫无疑问", Medium, "\"毫无疑问\"")
  ]

  /** 单字词: single-character verbs between punctuation */
  const ZH_SINGLE_CHARACTER: seq<Pattern> := [
    /* 25 */ Pattern("zh026", "(?<=[，。])拆(?=[，。开来])", Low, "单字词\"拆\"滥用"),
    /* 26 */ Pattern("zh027", "(?<=[，。])搞(?=[，。])", Low, "单字词\"搞\"")
  ]

  /** filler phrases, transitions, summaries */
  const EN_TRANSITIONS: seq<Pattern> := [
    /* 27 */ Pattern("en001", "It'?s worth noting that", High, "\"It's worth noting that\""),
    /* 28 */ Pattern("en002", "[Ll]et'?s delve into", High, "\"Let's delve into\""),
    /* 29 */ Pattern("en003", "[Ii]n today'?s (rapidly )?(evolving|changing)", High, "\"In today's rapidly evolving...\""),
    /* 30 */ Pattern("en004", "[Ii]t'?s important to (note|understand|recognize)", High, "\"It's important to note...\""),
    /* 31 */ Pattern("en005", "[Ff]urthermore", Medium, "\"Furthermore\" overuse"),
    /* 32 */ Pattern("en006", "[Mm]oreover", Medium, "\"Moreover\""),
    /* 33 */ Pattern("en007", "[Hh]owever,? it", Medium, "\"However\" as sentence starter"),
    /* 34 */ Pattern("en008", "[Ii]n conclusion", High, "\"In conclusion\"")
  ]

  /** contrast and hedging structures */
  const EN_STRUCTURE: seq<Pattern> := [
    /* 35 */ Pattern("en009", "[Nn]ot [^,.]+ but (rather|instead)", High, "\"Not X, but Y\" structure"),
    /* 36 */ Pattern("en010", "[Ww]hile [^,.]+ (it'?s|this|there)", Medium, "\"While X, it's Y\" hedge"),
    /* 37 */ Pattern("en011", "[Tt]his is not just [^,.]+ (this is|it'?s)", High, "\"This is not just X, it's Y\"")
  ]

  /** sycophancy */
  const EN_SYCOPHANCY: seq<Pattern> := [
    /* 38 */ Pattern("en012", "[Gg]reat question", High, "\"Great question!\""),
    /* 39 */ Pattern("en013", "[Aa]bsolutely[!.]", High, "\"Absolutely!\""),
    /* 40 */ Pattern("en014", "I'?d be happy to help", High, "\"I'd be happy to help\""),
    /* 41 */ Pattern("en015", "[Tt]hat'?s a (great|excellent|fantastic)", High, "\"That's a great...\"")
  ]

  /** formatting */
  const EN_FORMATTING: seq<Pattern> := [
    /* 42 */ Pattern("en016", "— [a-z]", Low, "Overuse of em dashes")
  ]

  /** hedging */
  const EN_HEDGING: seq<Pattern> := [
    /* 43 */ Pattern("en017", "[Ii]t'?s worth mentioning", High, "\"It's worth mentioning\""),
    /* 44 */ Pattern("en018", "[Ii]nterestingly", Medium, "\"Interestingly,\""),
    /* 45 */ Pattern("en019", "[Aa]s we( can)? see", Medium, "\"As we can see\""),
    /* 46 */ Pattern("en020", "[Uu]ltimately", Medium, "\"Ultimately\"")
  ]

  /** wordy phrases, meta-narration, colloquialisms */
  const EN_WORDY: seq<Pattern> := [
    /* 47 */ Pattern("en021", "[Ii]t is (important|crucial|essential|vital) to", Medium, "\"It is important/crucial to...\""),
    /* 48 */ Pattern("en022", "[Ii]n the realm of", High, "\"In the realm of\""),
    /* 49 */ Pattern("en023", "[Ll]et me (explain|break)", Medium, "\"Let me explain/break down\""),
    /* 50 */ Pattern("en024", "[Hh]ere'?s the (thing|deal|catch)", Medium, "\"Here's the thing\""),
    /* 51 */ Pattern("en025", "[Aa]t the end of the day", High, "\"At the end of the day\"")
  ]

  /** `PATTERNS`: the groups in declaration order (the comment gives each rule's index). */
  const PATTERNS: seq<Pattern> := CHINESE + ENGLISH

  /** Rules 0 to 26. */
  const CHINESE: seq<Pattern> :=
    (ZH_CONTRAST + ZH_SUMMARY + ZH_HEDGES + ZH_META)
    + (ZH_BUZZWORDS + ZH_SELF_CORRECTION + ZH_ESCALATION + ZH_SINGLE_CHARACTER)

  /** Rules 27 to 51. */
  const ENGLISH: seq<Pattern> :=
    (EN_TRANSITIONS + EN_STRUCTURE + EN_SYCOPHANCY)
    + (EN_FORMATTING + EN_HEDGING + EN_WORDY)

  /**
   * `{ pattern, matches }`: the rule and the length of its array of matches;
   * the fallback path stores an empty array.
   */
  datatype Detection = Detection(pattern: Pattern, matches: nat)

  /** The record the loop pushes for a rule with the given outcome. */
  function Record(p: Pattern, o: Outcome): Detection {
    match o
    case Matched(n) => Detection(p, n)
    case Fallback => Detection(p, 0)
  }

  function Weight(s: Severity): (w: nat)
    ensures 0 < w <= 15
    ensures w == 15 <==> s == High
    ensures w == 8 <==> s == Medium
    ensures w == 3 <==> s == Low
  {
    match s
    case High => 15
    case Medium => 8
    case Low => 3
  }

  /** One step of the scoring loop: `weight * Math.max(d.matches.length, 1)`. */
  function Points(d: Detection): (p: nat)
    ensures p >= Weight(d.pattern.severity)
    ensures d.matches <= 1 ==> p == Weight(d.pattern.severity)
  {
    Weight(d.pattern.severity) * (if d.matches >= 1 then d.matches else 1)
  }

  /** What `detectPatterns(text)` returns when it walks `catalog`. */
  function Detect(re: Regex, catalog: seq<Pattern>, text: string): seq<Detection> {
    Collect(re, catalog, text, Record)
  }

  /** What `calculateAIScore(text)` returns for `catalog`. */
  function AIScore(re: Regex, catalog: seq<Pattern>, text: string): nat {
    Normalize(RawScore(Weight, Hits(re, catalog, text)), Utf16Length(text))
  }

  /** `detectPatterns`: try every rule in order, keep those that hit. */
  method DetectPatterns(re: Regex, catalog: seq<Pattern>, text: string) returns (results: seq<Detection>)
    ensures results == Detect(re, catalog, text)
  {
    results := [];
    for i := 0 to |catalog|
      invariant results == Detect(re, catalog[..i], text)
    {
      var p := catalog[i];
      assert catalog[..i + 1][..i] == catalog[..i];
      if re.compiles(p.pattern) {
        var matches := re.countMatches(p.pattern, text);
        if matches > 0 {
          results := results + [Detection(p, matches)];
        }
      } else if Matching.Contains(text, p.pattern) {
        results := results + [Detection(p, 0)];
      }
    }
    assert catalog[..|catalog|] == catalog;
  }

  /** `calculateAIScore`: the weighted occurrences per thousand code units, doubled, rounded and capped at 100. */
  method CalculateAIScore(re: Regex, catalog: seq<Pattern>, text: string) returns (normalized: nat)
    ensures normalized == AIScore(re, catalog, text)
    ensures normalized <= 100
    ensures text == [] ==> normalized == 0
  {
    var detected := DetectPatterns(re, catalog, text);
    var chars := Utf16Length(text);
    if chars == 0 {
      return 0;
    }
    var score := 0;
    for i := 0 to |detected|
      invariant score == Total(detected[..i], Points)
    {
      var d := detected[i];
      assert detected[..i + 1][..i] == detected[..i];
      var weight := if d.pattern.severity == High then 15 else if d.pattern.severity == Medium then 8 else 3;
      var matchCount := if d.matches >= 1 then d.matches else 1;
      score := score + weight * matchCount;
    }
    assert detected[..|detected|] == detected;
    TotalOfCollect(re, catalog, text, Record, Points, Weight);
    normalized := Min(100, RoundHalfUp(2000 * score, chars));
  }

  /**
   * The result is an order-preserving selection of the catalog: at strictly
   * increasing catalog positions, exactly the rules that hit, each once.
   */
  lemma DetectFollowsCatalog(re: Regex, catalog: seq<Pattern>, text: string)
    ensures |Detect(re, catalog, text)| == |HitIndices(re, catalog, text)|
    ensures forall k :: 0 <= k < |HitIndices(re, catalog, text)| ==>
              HitIndices(re, catalog, text)[k] < |catalog| &&
              Detect(re, catalog, text)[k].pattern == catalog[HitIndices(re, catalog, text)[k]]
    ensures forall k, l :: 0 <= k < l < |HitIndices(re, catalog, text)| ==>
              HitIndices(re, catalog, text)[k] < HitIndices(re, catalog, text)[l]
    ensures forall i :: 0 <= i < |catalog| ==> (i in HitIndices(re, catalog, text) <==> Test(re, catalog[i], text).Some?)
  {
    HitsAreFilteredCatalog(re, catalog, text);
    CollectIsMap(re, catalog, text, Record);
  }

  /**
   * A compiled rule is reported with its full, non-zero match count; a rule
   * whose expression throws is reported, with an empty match array, only
   * when its text occurs in the input.
   */
  lemma DetectMatchCounts(re: Regex, catalog: seq<Pattern>, text: string)
    ensures forall d :: d in Detect(re, catalog, text) ==>
              && d.pattern in catalog
              && (re.compiles(d.pattern.pattern) ==> d.matches >= 1 && d.matches == re.countMatches(d.pattern.pattern, text))
              && (!re.compiles(d.pattern.pattern) ==> d.matches == 0 && Matching.Contains(text, d.pattern.pattern))
  {
    CollectIsMap(re, catalog, text, Record);
    HitOutcomes(re, catalog, text);
    var ds, hs := Detect(re, catalog, text), Hits(re, catalog, text);
    forall d | d in ds
      ensures d.pattern in catalog
      ensures re.compiles(d.pattern.pattern) ==> d.matches >= 1 && d.matches == re.countMatches(d.pattern.pattern, text)
      ensures !re.compiles(d.pattern.pattern) ==> d.matches == 0 && Matching.Contains(text, d.pattern.pattern)
    {
      var k :| 0 <= k < |ds| && ds[k] == d;
      assert hs[k] in hs;
    }
  }

  /** One high-severity hit is enough to reach the cap in any text of up to 301 code units. */
  lemma HighHitSaturates(re: Regex, catalog: seq<Pattern>, text: string, k: nat)
    requires k < |Detect(re, catalog, text)| && Detect(re, catalog, text)[k].pattern.severity == High
    requires 0 < Utf16Length(text) <= 301
    ensures AIScore(re, catalog, text) == 100
  {
    CollectIsMap(re, catalog, text, Record);
    HitOutcomes(re, catalog, text);
    var hs := Hits(re, catalog, text);
    var len := Utf16Length(text);
    assert hs[k] in hs;
    assert hs[k].pattern.severity == High;
    assert Occurrences(hs[k].outcome) >= 1;
    RawScoreCovers(Weight, hs, k);
    var raw := RawScore(Weight, hs);
    assert raw >= 15;
    assert 199 * len <= 4000 * raw;
  }

  /** A single rule hitting once: it alone is reported, the raw score is its weight, and a high rule caps any short text. */
  lemma LoneHit(re: Regex, catalog: seq<Pattern>, text: string, j: nat)
    requires j < |catalog| && Test(re, catalog[j], text) == Some(Matched(1))
    requires forall i :: 0 <= i < |catalog| && i != j ==> Test(re, catalog[i], text).None?
    ensures Detect(re, catalog, text) == [Detection(catalog[j], 1)]
    ensures RawScore(Weight, Hits(re, catalog, text)) == Weight(catalog[j].severity)
    ensures catalog[j].severity == High && 0 < Utf16Length(text) <= 301 ==> AIScore(re, catalog, text) == 100
  {
    SingleHit(re, catalog, text, j);
    CollectIsMap(re, catalog, text, Record);
    var hs := Hits(re, catalog, text);
    assert hs[..0] == [];
    assert RawScore(Weight, hs) == RawScore(Weight, []) + Weight(catalog[j].severity);
  }

  /** zh008 is the high, syntax-free rule "值得注意的是". */
  lemma Zh008Entry()
    ensures 7 < |PATTERNS| && PATTERNS[7].id == "zh008" && PATTERNS[7].severity == High
    ensures PATTERNS[7].pattern == "值得注意的是"
    ensures Matching.NoSyntax(PATTERNS[7].pattern) && Matching.Bmp(PATTERNS[7].pattern)
  {
    assert PATTERNS[7] == CHINESE[7] == ZH_HEDGES[0];
    MatchingExamples.Zh008SourceIsLiteral();
  }

  /** Under a conforming engine, zh008 is reported with one match in any text that contains its phrase exactly once. */
  lemma Zh008FindsOnce(re: Regex, text: string, i: nat)
    requires Conforms(re) && Matching.Bmp(text)
    requires Matching.OccursAt(text, "值得注意的是", i)
    requires forall j: nat :: Matching.OccursAt(text, "值得注意的是", j) ==> j == i
    ensures Test(re, PATTERNS[7], text) == Some(Matched(1))
  {
    Zh008Entry();
    LiteralRuleOnce(re, PATTERNS[7], text, i);
  }

  /**
   * A text that contains "值得注意的是" exactly once, and that no other rule
   * hits, is reported as the single entry zh008 with one match; its score is
   * the normalised weight 15, and 100 for a text of up to 301 code units.
   */
  lemma Zh008Alone(re: Regex, text: string, i: nat)
    requires Conforms(re) && Matching.Bmp(text)
    requires Matching.OccursAt(text, "值得注意的是", i)
    requires forall j: nat :: Matching.OccursAt(text, "值得注意的是", j) ==> j == i
    requires forall k :: 0 <= k < |PATTERNS| && k != 7 ==> Test(re, PATTERNS[k], text).None?
    ensures Detect(re, PATTERNS, text) == [Detection(PATTERNS[7], 1)]
    ensures AIScore(re, PATTERNS, text) == Normalize(15, Utf16Length(text))
    ensures Utf16Length(text) <= 301 ==> AIScore(re, PATTERNS, text) == 100
  {
    Zh008Entry();
    Zh008FindsOnce(re, text, i);
    LoneHit(re, PATTERNS, text, 7);
    assert |text| >= 6;
  }

  /** en005 is the medium rule `[Ff]urthermore`. */
  lemma En005Entry()
    ensures 31 < |PATTERNS| && PATTERNS[31].id == "en005" && PATTERNS[31].severity == Medium
    ensures PATTERNS[31].pattern == "[Ff]urthermore"
  {
    assert PATTERNS[31] == ENGLISH[4] == EN_TRANSITIONS[4];
  }

  /** The example text for en005, "Furthermore furthermore Furthermore" (`MatchingExamples.FurthermoreText`). */
  const FURTHERMORE_TEXT: string := MatchingExamples.ThreeWords("urthermore", 'F', ' ', 'f', ' ', 'F')

  /** en005 matches the example text three times under a conforming engine. */
  lemma En005Thrice(re: Regex)
    requires Conforms(re)
    ensures Test(re, PATTERNS[31], FURTHERMORE_TEXT) == Some(Matched(3))
  {
    En005Entry();
    MatchingExamples.ParseFurthermore();
    MatchingExamples.FurthermoreCount();
    MatchingExamples.FurthermoreBmp();
    MatchingExamples.FurthermoreSourceBmp();
    var atoms := [Matching.Atom([Matching.Range('F', 'F'), Matching.Range('f', 'f')], false)] + Matching.Literal("urthermore");
    FragmentRuleCounts(re, PATTERNS[31], FURTHERMORE_TEXT, atoms, 3);
  }

  /** A medium rule matched three times is worth 3 × 8 = 24. */
  lemma MediumThrice(p: Pattern)
    requires p.severity == Medium
    ensures RawScore(Weight, [Hit(p, Matched(3))]) == 24
  {
    assert [Hit(p, Matched(3))][..0] == [];
  }

  /**
   * Linearity in the occurrence count: under a conforming engine en005
   * ("[Ff]urthermore", medium) matches the example text three times; if no
   * other rule hits it, the raw score is 3 × 8 = 24 and the score is capped.
   */
  lemma ThreeFurthermores(re: Regex)
    requires Conforms(re)
    requires forall i :: 0 <= i < |PATTERNS| && i != 31 ==> Test(re, PATTERNS[i], FURTHERMORE_TEXT).None?
    ensures PATTERNS[31].id == "en005"
    ensures Detect(re, PATTERNS, FURTHERMORE_TEXT) == [Detection(PATTERNS[31], 3)]
    ensures RawScore(Weight, Hits(re, PATTERNS, FURTHERMORE_TEXT)) == 24
    ensures AIScore(re, PATTERNS, FURTHERMORE_TEXT) == 100
  {
    En005Entry();
    En005Thrice(re);
    SingleHit(re, PATTERNS, FURTHERMORE_TEXT, 31);
    CollectIsMap(re, PATTERNS, FURTHERMORE_TEXT, Record);
    MediumThrice(PATTERNS[31]);
    MatchingExamples.FurthermoreBmp();
    Utf16LengthBmp(FURTHERMORE_TEXT);
  }

  /** No Chinese rule is empty or ends in `?`. */
  lemma ChineseIsPlain()
    ensures AllPlain(CHINESE)
  {
    assert AllPlain(ZH_CONTRAST) && AllPlain(ZH_SUMMARY) && AllPlain(ZH_HEDGES) && AllPlain(ZH_META);
    AllPlainAppend(ZH_CONTRAST, ZH_SUMMARY);
    AllPlainAppend(ZH_CONTRAST + ZH_SUMMARY, ZH_HEDGES);
    AllPlainAppend(ZH_CONTRAST + ZH_SUMMARY + ZH_HEDGES, ZH_META);
    assert AllPlain(ZH_BUZZWORDS) && AllPlain(ZH_SELF_CORRECTION) && AllPlain(ZH_ESCALATION) && AllPlain(ZH_SINGLE_CHARACTER);
    AllPlainAppend(ZH_BUZZWORDS, ZH_SELF_CORRECTION);
    AllPlainAppend(ZH_BUZZWORDS + ZH_SELF_CORRECTION, ZH_ESCALATION);
    AllPlainAppend(ZH_BUZZWORDS + ZH_SELF_CORRECTION + ZH_ESCALATION, ZH_SINGLE_CHARACTER);
    AllPlainAppend(ZH_CONTRAST + ZH_SUMMARY + ZH_HEDGES + ZH_META,
                   ZH_BUZZWORDS + ZH_SELF_CORRECTION + ZH_ESCALATION + ZH_SINGLE_CHARACTER);
  }

  /** No English rule is empty or ends in `?`. */
  lemma EnglishIsPlain()
    ensures AllPlain(ENGLISH)
  {
    assert AllPlain(EN_TRANSITIONS) && AllPlain(EN_STRUCTURE) && AllPlain(EN_SYCOPHANCY);
    AllPlainAppend(EN_TRANSITIONS, EN_STRUCTURE);
    AllPlainAppend(EN_TRANSITIONS + EN_STRUCTURE, EN_SYCOPHANCY);
    assert AllPlain(EN_FORMATTING) && AllPlain(EN_HEDGING) && AllPlain(EN_WORDY);
    AllPlainAppend(EN_FORMATTING, EN_HEDGING);
    AllPlainAppend(EN_FORMATTING + EN_HEDGING, EN_WORDY);
    AllPlainAppend(EN_TRANSITIONS + EN_STRUCTURE + EN_SYCOPHANCY, EN_FORMATTING + EN_HEDGING + EN_WORDY);
  }

  /** No rule of the catalog is empty or ends in `?`. */
  lemma CatalogIsPlain()
    ensures AllPlain(PATTERNS)
  {
    ChineseIsPlain();
    EnglishIsPlain();
    AllPlainAppend(CHINESE, ENGLISH);
  }

  /**
   * `detectPatterns("")` is empty: no rule of the catalog is empty or ends
   * in `?`, so every rule the fragment covers must consume a character, no
   * rule's text is a substring of "", and a compiled rule the fragment does
   * not cover is taken to find nothing in "".
   */
  lemma DetectEmpty(re: Regex)
    requires Conforms(re)
    requires forall i :: 0 <= i < |PATTERNS| && !Covered(PATTERNS[i].pattern) ==> re.countMatches(PATTERNS[i].pattern, "") == 0
    ensures Detect(re, PATTERNS, "") == []
    ensures AIScore(re, PATTERNS, "") == 0
  {
    CatalogIsPlain();
    EmptyTextNoHits(re, PATTERNS);
    CollectIsMap(re, PATTERNS, "", Record);
  }

  /** Two runs of `detectPatterns` on the same text agree: each builds a fresh array. */
  method DetectTwice(re: Regex, catalog: seq<Pattern>, text: string) returns (first: seq<Detection>, second: seq<Detection>)
    ensures first == second
  {
    first := DetectPatterns(re, catalog, text);
    second := DetectPatterns(re, catalog, text);
  }
}
