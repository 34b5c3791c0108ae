/**
 * The rewrite endpoint of app/api/rewrite/route.ts: its own inline catalog
 * and copies of `detectPatterns` and `calculateScore`, and the pure parts of
 * `POST` (request validation, the intensity directive, the `max_tokens`
 * bound, the fallback to the original text and the response counts). The
 * completion service, the API key and the request body are parameters.
 */
module Rewrite {
  import opened Wrappers
  import opened Engine
  import Matching
  import Patterns

  /** The high-severity Chinese rules. */
  const HIGH_ZH: seq<Pattern> := [
    /*  0 */ Pattern("zh001", "不是[^，。]+而是", High, "\"不是...而是...\"句式"),
    /*  1 */ Pattern("zh004", "简单[一来]说", High, "\"简单来说\""),
    /*  2 */ Pattern("zh006", "总[的而]言之", High, "\"总而言之\""),
    /*  3 */ Pattern("zh007", "综上所述", High, "\"综上所述\""),
    /*  4 */ Pattern("zh008", "值得注意的是", High, "\"值得注意的是\""),
    /*  5 */ Pattern("zh009", "需要[指强]调的是", High, "\"需要指出的是\""),
    /*  6 */ Pattern("zh011", "让我[们来]深入", High, "\"让我们深入探讨\""),
    /*  7 */ Pattern("zh015", "兜住", High, "\"兜住\""),
    /*  8 */ Pattern("zh016", "接住", High, "\"接住\""),
    /*  9 */ Pattern("zh022", "这不仅仅是[^，。]+更是", High, "\"不仅仅是...更是...\"")
  ]

  /** The high-severity English rules. */
  const HIGH_EN: seq<Pattern> := [
    /* 10 */ Pattern("en001", "It'?s worth noting", High, "\"It's worth noting\""),
    /* 11 */ Pattern("en002", "[Ll]et'?s delve", High, "\"Let's delve into\""),
    /* 12 */ Pattern("en003", "[Ii]n today'?s (rapidly )?(evolving|changing)", High, "\"In today's rapidly evolving\""),
    /* 13 */ Pattern("en008", "[Ii]n conclusion", High, "\"In conclusion\""),
    /* 14 */ Pattern("en009", "[Nn]ot [^,.]+ but (rather|instead)", High, "\"Not X, but Y\""),
    /* 15 */ Pattern("en012", "[Gg]reat question", High, "\"Great question!\""),
    /* 16 */ Pattern("en014", "I'?d be happy to help", High, "\"I'd be happy to help\"")
  ]

  /** The medium-severity rules. */
  const MEDIUM: seq<Pattern> := [
    /* 17 */ Pattern("zh013", "换句话说", Medium, "\"换句话说\""),
    /* 18 */ Pattern("zh024", "事实上", Medium, "\"事实上\""),
    /* 19 */ Pattern("en005", "[Ff]urthermore", Medium, "\"Furthermore\""),
    /* 20 */ Pattern("en006", "[Mm]oreover", Medium, "\"Moreover\"")
  ]

  /** The inline `PATTERNS`: high and medium rules only (the comments give each rule's index). */
  const PATTERNS: seq<Pattern> := HIGH_ZH + HIGH_EN + MEDIUM

  /** `{ id, desc, severity, count }`: the fallback path stores a count of 1. */
  datatype Detected = Detected(id: string, desc: string, severity: Severity, count: nat)

  /** The record the loop pushes for a rule with the given outcome. */
  function Record(p: Pattern, o: Outcome): Detected {
    match o
    case Matched(n) => Detected(p.id, p.description, p.severity, n)
    case Fallback => Detected(p.id, p.description, p.severity, 1)
  }

  /** `d.severity === 'high' ? 15 : 8`: every severity other than high weighs 8. */
  function Weight(s: Severity): (w: nat)
    ensures w == 15 || w == 8
    ensures w == 15 <==> s == High
  {
    if s == High then 15 else 8
  }

  /** One step of the scoring loop. */
  function Points(d: Detected): (p: nat)
    ensures p == 0 <==> d.count == 0
    ensures d.count >= 1 ==> p >= Weight(d.severity)
  {
    Weight(d.severity) * d.count
  }

  /** What the inline `detectPatterns(text)` returns when it walks `catalog`. */
  function Detect(re: Regex, catalog: seq<Pattern>, text: string): seq<Detected> {
    Collect(re, catalog, text, Record)
  }

  /** What `calculateScore(text)` returns for `catalog`. */
  function Score(re: Regex, catalog: seq<Pattern>, text: string): nat {
    Normalize(RawScore(Weight, Hits(re, catalog, text)), Utf16Length(text))
  }

  /** The inline `detectPatterns`. */
  method DetectPatterns(re: Regex, catalog: seq<Pattern>, text: string) returns (results: seq<Detected>)
    ensures results == Detect(re, catalog, text)
  {
    results := [];
    for i := 0 to |catalog|
      invariant results == Detect(re, catalog[..i], text)
    {
      var p := catalog[i];
      assert catalog[..i + 1][..i] == catalog[..i];
      if re.compiles(p.pattern) {
        var matches := re.countMatches(p.pattern, text);
        if matches > 0 {
          results := results + [Detected(p.id, p.description, p.severity, matches)];
        }
      } else if Matching.Contains(text, p.pattern) {
        results := results + [Detected(p.id, p.description, p.severity, 1)];
      }
    }
    assert catalog[..|catalog|] == catalog;
  }

  /** `calculateScore`. */
  method CalculateScore(re: Regex, catalog: seq<Pattern>, text: string) returns (score: nat)
    ensures score == Score(re, catalog, text)
    ensures score <= 100
    ensures text == [] ==> score == 0
  {
    var detected := DetectPatterns(re, catalog, text);
    var length := Utf16Length(text);
    if length == 0 {
      return 0;
    }
    var raw := 0;
    for i := 0 to |detected|
      invariant raw == Total(detected[..i], Points)
    {
      var d := detected[i];
      assert detected[..i + 1][..i] == detected[..i];
      raw := raw + (if d.severity == High then 15 else 8) * d.count;
    }
    assert detected[..|detected|] == detected;
    TotalOfCollect(re, catalog, text, Record, Points, Weight);
    score := Min(100, RoundHalfUp(2000 * raw, length));
  }

  /**
   * Every inline result follows catalog order and carries a count of at
   * least one: the full match count on the regex path, exactly one on the
   * fallback path however often the rule's text occurs.
   */
  lemma DetectCounts(re: Regex, catalog: seq<Pattern>, text: string)
    ensures |Detect(re, catalog, text)| == |HitIndices(re, catalog, text)|
    ensures forall k :: 0 <= k < |HitIndices(re, catalog, text)| ==>
              && HitIndices(re, catalog, text)[k] < |catalog|
              && Detect(re, catalog, text)[k].id == catalog[HitIndices(re, catalog, text)[k]].id
              && Detect(re, catalog, text)[k].severity == catalog[HitIndices(re, catalog, text)[k]].severity
    ensures forall k, l :: 0 <= k < l < |HitIndices(re, catalog, text)| ==>
              HitIndices(re, catalog, text)[k] < HitIndices(re, catalog, text)[l]
    ensures forall k :: 0 <= k < |HitIndices(re, catalog, text)| ==>
              var p := catalog[HitIndices(re, catalog, text)[k]];
              && Detect(re, catalog, text)[k].count >= 1
              && (re.compiles(p.pattern) ==> Detect(re, catalog, text)[k].count == re.countMatches(p.pattern, text))
              && (!re.compiles(p.pattern) ==> Detect(re, catalog, text)[k].count == 1 && Matching.Contains(text, p.pattern))
  {
    HitsAreFilteredCatalog(re, catalog, text);
    CollectIsMap(re, catalog, text, Record);
  }

  /**
   * On a catalog without low-severity rules the inline score and the
   * canonical score of module Patterns agree on every text, although the
   * two loops keep different records (a count of 1 against an empty match
   * array on the fallback path) and weigh low severity differently.
   */
  lemma SameScoreWithoutLow(re: Regex, catalog: seq<Pattern>, text: string)
    requires forall i :: 0 <= i < |catalog| ==> catalog[i].severity != Low
    ensures Score(re, catalog, text) == Patterns.AIScore(re, catalog, text)
  {
    var hs := Hits(re, catalog, text);
    HitOutcomes(re, catalog, text);
    forall k | 0 <= k < |hs|
      ensures Weight(hs[k].pattern.severity) == Patterns.Weight(hs[k].pattern.severity)
    {
      assert hs[k] in hs;
    }
    RawScoreAgrees(Weight, Patterns.Weight, hs);
  }

  /** The two record shapes describe the same detections: same rules, and the inline count is the canonical `max(matches, 1)`. */
  lemma SameDetectionsAsPatterns(re: Regex, catalog: seq<Pattern>, text: string)
    ensures |Detect(re, catalog, text)| == |Patterns.Detect(re, catalog, text)|
    ensures forall k :: 0 <= k < |Detect(re, catalog, text)| ==>
              var d, e := Detect(re, catalog, text)[k], Patterns.Detect(re, catalog, text)[k];
              && d.id == e.pattern.id && d.desc == e.pattern.description && d.severity == e.pattern.severity
              && d.count == (if e.matches >= 1 then e.matches else 1)
  {
    CollectIsMap(re, catalog, text, Record);
    CollectIsMap(re, catalog, text, Patterns.Record);
    HitOutcomes(re, catalog, text);
    var hs := Hits(re, catalog, text);
    forall k | 0 <= k < |hs|
      ensures hs[k].outcome.Matched? ==> hs[k].outcome.count >= 1
    {
      assert hs[k] in hs;
    }
  }

  /** The inline catalog has no low-severity rule, so the endpoint's scores are the canonical formula applied to it. */
  lemma InlineScoreIsCanonical(re: Regex, text: string)
    ensures forall i :: 0 <= i < |PATTERNS| ==> PATTERNS[i].severity != Low
    ensures Score(re, PATTERNS, text) == Patterns.AIScore(re, PATTERNS, text)
  {
    SameScoreWithoutLow(re, PATTERNS, text);
  }

  /** No rule of the inline catalog is empty or ends in `?`. */
  lemma CatalogIsPlain()
    ensures AllPlain(PATTERNS)
  {
    assert AllPlain(HIGH_ZH) && AllPlain(HIGH_EN) && AllPlain(MEDIUM);
    AllPlainAppend(HIGH_ZH, HIGH_EN);
    AllPlainAppend(HIGH_ZH + HIGH_EN, MEDIUM);
  }

  /**
   * The inline `detectPatterns("")` is empty and `calculateScore("")` is 0,
   * on the same grounds as `Patterns.DetectEmpty`.
   */
  lemma DetectEmpty(re: Regex)
    requires Conforms(re)
    requires forall i :: 0 <= i < |PATTERNS| && !Covered(PATTERNS[i].pattern) ==> re.countMatches(PATTERNS[i].pattern, "") == 0
    ensures Detect(re, PATTERNS, "") == []
    ensures Score(re, PATTERNS, "") == 0
  {
    CatalogIsPlain();
    EmptyTextNoHits(re, PATTERNS);
    CollectIsMap(re, PATTERNS, "", Record);
  }

  // ----- the request handler -----

  /** A JSON value as far as the handler looks at it: absent, a string, or anything else. */
  datatype Json = Undefined | Str(s: string) | NonString

  /** Something thrown inside the handler: an `Error` with its message, or any other value. */
  datatype Thrown = ErrorObject(message: string) | OtherValue

  /**
   * The request: either reading it threw (the body is not JSON, or it is
   * `null` or `undefined` and destructuring `{ text, mode }` fails), or the
   * two fields the handler reads.
   */
  datatype Body = Unreadable(thrown: Thrown) | Fields(text: Json, mode: Json)

  /** What the handler sends to the completion service. */
  datatype Completion = Completion(intensity: string, text: string, maxTokens: nat)

  /** The completion service's answer: the request or its decoding threw, or `choices?.[0]?.message?.content`. */
  datatype ServiceReply = Threw(thrown: Thrown) | Answered(content: Option<string>)

  /** The JSON response. */
  datatype Reply =
    | Failure(status: nat, error: string)
    | Success(original: string, rewritten: string, originalScore: nat, newScore: nat,
              patternsFound: nat, patternsRemaining: nat, patterns: seq<Detected>, mode: Json)

  /** Outcome of the two input checks. */
  datatype Checked = Accepted(text: string) | Rejected(error: string)

  const MAX_TEXT_LENGTH: nat := 10000
  const MAX_TOKENS: nat := 4096

  /** The error message of the outer `catch`. */
  function ErrorMessage(t: Thrown): (m: string)
    ensures t.ErrorObject? ==> m == t.message
    ensures t.OtherValue? ==> m == "Internal error"
  {
    match t
    case ErrorObject(message) => message
    case OtherValue => "Internal error"
  }

  /**
   * The two checks on `text`: it must be a non-empty string, and at most
   * 10,000 UTF-16 code units long.
   */
  function CheckText(v: Json): (r: Checked)
    ensures r.Accepted? <==> v.Str? && 0 < Utf16Length(v.s) <= MAX_TEXT_LENGTH
    ensures r.Accepted? ==> r.text == v.s && r.text != []
    ensures r.Rejected? && r.error == "Text is required" <==> !v.Str? || v.s == []
    ensures r.Rejected? && r.error == "Max 10,000 characters" <==> v.Str? && Utf16Length(v.s) > MAX_TEXT_LENGTH
  {
    if !v.Str? || v.s == [] then Rejected("Text is required")
    else if Utf16Length(v.s) > MAX_TEXT_LENGTH then Rejected("Max 10,000 characters")
    else Accepted(v.s)
  }

  /** The destructuring default `mode = 'balanced'`: it applies to an absent field only. */
  function ModeOrDefault(mode: Json): (m: Json)
    ensures mode.Undefined? ==> m == Str("balanced")
    ensures !mode.Undefined? ==> m == mode
  {
    if mode.Undefined? then Str("balanced") else mode
  }

  /** The intensity line appended to the system prompt. */
  function Intensity(mode: Json): (r: string)
    ensures r == "Minimal changes." <==> mode == Str("light")
    ensures r == "Aggressively rewrite." <==> mode == Str("aggressive")
    ensures r == "Balanced." <==> mode != Str("light") && mode != Str("aggressive")
  {
    if mode == Str("light") then "Minimal changes."
    else if mode == Str("aggressive") then "Aggressively rewrite."
    else "Balanced."
  }

  /** `Math.min(text.length * 2, 4096)`. */
  function MaxTokens(text: string): (n: nat)
    ensures n <= MAX_TOKENS && n <= 2 * Utf16Length(text)
    ensures n == MAX_TOKENS || n == 2 * Utf16Length(text)
  {
    Min(2 * Utf16Length(text), MAX_TOKENS)
  }

  /** `content || text`: an absent or empty completion leaves the original text. */
  function RewrittenText(content: Option<string>, text: string): (r: string)
    ensures content.Some? && content.value != [] ==> r == content.value
    ensures content.None? || content.value == [] ==> r == text
    ensures text != [] ==> r != []
  {
    if content.Some? && content.value != [] then content.value else text
  }

  /** A configured key: `process.env.OPENAI_API_KEY` is set and not empty. */
  predicate HasKey(apiKey: Option<string>): (b: bool)
    ensures apiKey.None? ==> !b
    ensures apiKey == Some([]) ==> !b
    ensures b ==> |apiKey.value| >= 1
  {
    apiKey.Some? && apiKey.value != []
  }

  /** A text that passed the checks always gets at least one token and never more than the cap. */
  lemma AcceptedTextTokens(v: Json)
    requires CheckText(v).Accepted?
    ensures 2 <= MaxTokens(CheckText(v).text) <= MAX_TOKENS
    ensures Utf16Length(CheckText(v).text) <= 2048 ==> MaxTokens(CheckText(v).text) == 2 * Utf16Length(CheckText(v).text)
  {
  }

  /**
   * `POST`: the error responses in the order the handler reaches them, then
   * the scores and counts of the original and the rewritten text. The
   * completion service is the function `service`.
   */
  method Post(re: Regex, body: Body, apiKey: Option<string>, service: Completion -> ServiceReply)
    returns (reply: Reply)
    ensures body.Unreadable? ==> reply == Failure(500, ErrorMessage(body.thrown))
    ensures body.Fields? && CheckText(body.text).Rejected? ==> reply == Failure(400, CheckText(body.text).error)
    ensures body.Fields? && CheckText(body.text).Accepted? && !HasKey(apiKey) ==>
              reply == Failure(500, "API key not configured")
    ensures body.Fields? && CheckText(body.text).Accepted? && HasKey(apiKey) ==>
              var text := CheckText(body.text).text;
              var mode := ModeOrDefault(body.mode);
              var answer := service(Completion(Intensity(mode), text, MaxTokens(text)));
              && (answer.Threw? ==> reply == Failure(500, ErrorMessage(answer.thrown)))
              && (answer.Answered? ==>
                    var rewritten := RewrittenText(answer.content, text);
                    reply == Success(text, rewritten, Score(re, PATTERNS, text), Score(re, PATTERNS, rewritten),
                                     |Detect(re, PATTERNS, text)|, |Detect(re, PATTERNS, rewritten)|,
                                     Detect(re, PATTERNS, text), mode))
    ensures reply.Failure? ==> reply.status == 400 || reply.status == 500
    ensures reply.Success? ==>
              && reply.original != [] && Utf16Length(reply.original) <= MAX_TEXT_LENGTH && reply.rewritten != []
              && reply.originalScore <= 100 && reply.newScore <= 100
              && reply.patternsFound == |reply.patterns|
    ensures reply.Success? && reply.rewritten == reply.original ==>
              reply.newScore == reply.originalScore && reply.patternsRemaining == reply.patternsFound
  {
    if body.Unreadable? {
      return Failure(500, ErrorMessage(body.thrown));
    }
    var checked := CheckText(body.text);
    if checked.Rejected? {
      return Failure(400, checked.error);
    }
    var text := checked.text;
    var mode := ModeOrDefault(body.mode);
    var detected := DetectPatterns(re, PATTERNS, text);
    var originalScore := CalculateScore(re, PATTERNS, text);
    if !HasKey(apiKey) {
      return Failure(500, "API key not configured");
    }
    var intensity := Intensity(mode);
    var answer := service(Completion(intensity, text, MaxTokens(text)));
    if answer.Threw? {
      return Failure(500, ErrorMessage(answer.thrown));
    }
    var rewritten := RewrittenText(answer.content, text);
    var newScore := CalculateScore(re, PATTERNS, rewritten);
    var newDetected := DetectPatterns(re, PATTERNS, rewritten);
    reply := Success(text, rewritten, originalScore, newScore, |detected|, |newDetected|, detected, mode);
  }

  // ----- the inline catalog against the canonical one -----

  /** For each inline rule, the index of the canonical rule with the same id. */
  const CANONICAL_INDEX: seq<nat> := [0, 3, 5, 6, 7, 8, 10, 14, 15, 21, 27, 28, 29, 34, 35, 38, 40, 12, 23, 31, 32]

  /** A canonical rule with the same id and severity as inline rule `k`, at the listed index. */
  predicate HasTwin(k: nat)
    requires k < |PATTERNS| && k < |CANONICAL_INDEX|
  {
    && CANONICAL_INDEX[k] < |Patterns.PATTERNS|
    && Patterns.PATTERNS[CANONICAL_INDEX[k]].id == PATTERNS[k].id
    && Patterns.PATTERNS[CANONICAL_INDEX[k]].severity == PATTERNS[k].severity
  }

  /** A canonical twin that also has exactly the same pattern. */
  predicate SamePattern(k: nat)
    requires k < |PATTERNS| && k < |CANONICAL_INDEX| && CANONICAL_INDEX[k] < |Patterns.PATTERNS|
  {
    Patterns.PATTERNS[CANONICAL_INDEX[k]].pattern == PATTERNS[k].pattern
  }

  lemma TwinsFrom0()
    ensures forall k :: 0 <= k < 5 ==> HasTwin(k) && SamePattern(k)
  {
  }

  lemma TwinsFrom5()
    ensures forall k :: 5 <= k < 10 ==> HasTwin(k) && SamePattern(k)
  {
  }

  lemma TwinsFrom10()
    ensures forall k :: 10 <= k < 12 ==> HasTwin(k)
    ensures Patterns.PATTERNS[CANONICAL_INDEX[10]].pattern == PATTERNS[10].pattern + " that"
    ensures Patterns.PATTERNS[CANONICAL_INDEX[11]].pattern == PATTERNS[11].pattern + " into"
  {
  }

  lemma TwinsFrom12()
    ensures forall k :: 12 <= k < 14 ==> HasTwin(k) && SamePattern(k)
  {
  }

  lemma TwinsFrom14()
    ensures forall k :: 14 <= k < 17 ==> HasTwin(k) && SamePattern(k)
  {
  }

  lemma TwinsFrom17()
    ensures forall k :: 17 <= k < |PATTERNS| ==> HasTwin(k) && SamePattern(k)
  {
  }

  /**
   * The inline catalog is a reordered selection of the canonical one: each
   * rule has a canonical twin with the same id and severity (several
   * descriptions are shortened) and the same pattern apart from en001 and
   * en002, which have lost the trailing " that" and " into", and the medium
   * rules come after the high ones rather than in canonical order.
   */
  lemma InlineCatalogDrift()
    ensures |CANONICAL_INDEX| == |PATTERNS|
    ensures forall k :: 0 <= k < |PATTERNS| ==> HasTwin(k) && (k != 10 && k != 11 ==> SamePattern(k))
    ensures Patterns.PATTERNS[CANONICAL_INDEX[10]].pattern == PATTERNS[10].pattern + " that"
    ensures Patterns.PATTERNS[CANONICAL_INDEX[11]].pattern == PATTERNS[11].pattern + " into"
    ensures CANONICAL_INDEX[16] > CANONICAL_INDEX[17]
  {
    TwinsFrom0();
    TwinsFrom5();
    TwinsFrom10();
    TwinsFrom12();
    TwinsFrom14();
    TwinsFrom17();
  }
}
