# UnAI cliché detection and scoring, modelled in Dafny

UnAI finds the stock phrases of machine-written prose ("值得注意的是",
"It's worth noting that", "Furthermore", …) in a text and rates how
"AI-like" the text is on a scale from 0 to 100. The rating is the weighted
number of occurrences per thousand UTF-16 code units, doubled, rounded and
capped at 100. The repository holds two copies of this engine:

- `lib/patterns.ts`: the canonical catalog of 52 rules, with
  `detectPatterns` and `calculateAIScore`.
- `app/api/rewrite/route.ts`: a smaller inline catalog of 21 rules, its own
  `detectPatterns` and `calculateScore`, and the `POST` handler. The handler
  validates the request, scores the text, asks a completion service for a
  rewrite, and scores the rewrite.

The project is split into these modules:

- `Matching` (`matching.dfy`) models `String.prototype.includes`. It also
  models a small fragment of ECMAScript regular expressions: literal
  characters, simple character classes, and a greedy `?` after one of them.
  On that fragment it defines the leftmost, non-overlapping global scan that
  `text.matchAll(new RegExp(src, 'g'))` performs.
- `MatchingExamples` (`matching_examples.dfy`) works the fragment through on
  the rule `[Ff]urthermore`: how it parses, and that the global scan counts
  three matches in "Furthermore furthermore Furthermore".
- `Engine` (`engine.dfy`) is the engine both copies share. It is generic in
  three things:
  - the catalog;
  - the record each copy keeps per detection;
  - the severity weights.

  It models the host's regular-expression engine as a value `Regex`: whether
  a source compiles, and how many global matches it yields. `Conforms(re)`
  says that engine agrees with `Matching` on the fragment, for sources and
  texts inside the Basic Multilingual Plane, where characters and UTF-16 code
  units coincide. The module also
  holds the score normalisation and `text.length` in UTF-16 code units.
- `Patterns` (`patterns.dfy`) instantiates the engine for `lib/patterns.ts`:
  - the catalog, rule by rule;
  - `detectPatterns` and `calculateAIScore` as loops proved against
    specification functions;
  - lemmas about the order of results, the match counts and saturation;
  - concrete catalog examples.
- `Rewrite` (`rewrite.dfy`) instantiates the engine for
  `app/api/rewrite/route.ts`:
  - the inline catalog and its two loops;
  - a proof that the inline score equals the canonical score on its catalog;
  - the differences between the two catalogs;
  - the pure parts of `POST`, and `POST` itself with the completion service
    as a parameter.
- `Wrappers` (`wrappers.dfy`) provides `Option`.

Each catalog is a parameter of the detection and scoring methods. The
constant `PATTERNS` of each module is the catalog the source uses. So every
property about catalog order, counts and scores holds for any catalog. The
concrete lemmas instantiate them with the real one.

## Model

| member | source | states |
|---|---|---|
| Matching.Contains | lib/patterns.ts:164 | `includes` is true exactly when the rule text occurs at some position of the input |
| Matching.Parse | lib/patterns.ts:157 | `new RegExp` on the fragment: a parsed source has no more atoms than characters, and a non-empty source has at least one atom |
| Matching.ParseMandatory | lib/patterns.ts:157 | a parsed source that is not empty and does not end in `?` must consume at least one character per match |
| Matching.ParseClassThenLiteral | lib/patterns.ts:157 | a class followed by syntax-free text compiles to that class atom followed by the literal |
| Matching.MatchFrom | lib/patterns.ts:157-158 | a match attempt anchored at a position ends inside the text, after at least the mandatory atoms and at most all atoms |
| Matching.CountFrom | lib/patterns.ts:158 | the scan from a position counts at most one match per remaining start position |
| Matching.Count | lib/patterns.ts:158 | `[...text.matchAll(regex)].length` on the fragment: at most one more than the text length, and positive exactly when the expression matches at some position |
| Matching.CountFromMiss | lib/patterns.ts:158 | where nothing matches, the scan moves on by one character |
| Matching.CountFromHit | lib/patterns.ts:158 | after a non-empty match, the scan counts it and resumes where the match ends |
| Matching.CountEmpty | lib/patterns.ts:158 | an expression that must consume a character finds nothing in the empty text |
| Matching.MatchClassThenLiteral | lib/patterns.ts:157-158 | a class atom followed by a literal matches at a position iff the class accepts that character and the literal follows, and the match ends after the literal |
| Matching.CountFromPositive | lib/patterns.ts:158-159 | the global scan reports at least one match exactly when the expression matches at some position |
| Matching.CountFromBound | lib/patterns.ts:158 | matches do not overlap: count × shortest match length ≤ length of the rest of the text |
| Matching.MatchLiteral | lib/patterns.ts:157-158 | a rule without syntax matches at a position exactly when its text occurs there, and the match covers that text |
| Matching.LiteralCountIffContains | lib/patterns.ts:158-165 | for a literal rule the regular-expression path finds a match exactly when the `includes` fallback would |
| Matching.CountLiteralSelf | lib/patterns.ts:158 | a non-empty literal rule occurs exactly once in its own text |
| Matching.CountLiteralFrom | lib/patterns.ts:158 | the scan of a non-empty literal that occurs at exactly one position, from any start at or before it, counts exactly one match |
| Matching.CountLiteralOnce | lib/patterns.ts:158 | a non-empty literal that occurs at exactly one position of the text is counted once |
| Matching.ParseClass | lib/patterns.ts:157 | reading a character class consumes input, so parsing terminates |
| Matching.ParseLiteral | lib/patterns.ts:157 | a rule without regular-expression syntax compiles to the literal it spells |
| MatchingExamples.ParseFurthermore | lib/patterns.ts:98 | the source of en005, `[Ff]urthermore`, compiles to the class {F, f} followed by the literal "urthermore" |
| MatchingExamples.CountThreeHits | lib/patterns.ts:158 | three matches separated by one non-matching position each give a global count of 3 |
| MatchingExamples.CountWordThrice | lib/patterns.ts:158 | a class-then-word expression occurs three times in a text of three such words joined by separators the class rejects |
| MatchingExamples.FurthermoreText | lib/patterns.ts:98 | the three-word example text is "Furthermore furthermore Furthermore" |
| MatchingExamples.FurthermoreCount | lib/patterns.ts:157-158 | the compiled en005 finds three matches in "Furthermore furthermore Furthermore" |
| Engine.FragmentEngine | lib/patterns.ts:157-158 | there is an engine that conforms to the fragment and compiles exactly the sources the fragment parses |
| Engine.Test | lib/patterns.ts:156-166 | one try/catch step: a compiled rule hits with the engine's non-zero count; a rule that throws hits through the fallback only when its text occurs; a miss is exactly a zero count or a failed `includes` |
| Engine.Collect | lib/patterns.ts:155-168 | the loop over the catalog reports no more records than there are rules (which records, in which order: Engine.CollectIsMap and Engine.HitsAreFilteredCatalog) |
| Engine.Hits | lib/patterns.ts:155-168 | the engine's hit list is no longer than the catalog, and empty for an empty catalog (its contents: Engine.HitsAreFilteredCatalog) |
| Engine.CollectIsMap | lib/patterns.ts:155-168 | each copy's result list is the list of hits, mapped record by record to that copy's record shape |
| Engine.HitsAreFilteredCatalog | lib/patterns.ts:155-168 | the hits are the catalog filtered by "the rule hits", at strictly increasing positions, each rule at most once, with the outcome of its test, and a position is listed iff its rule hits |
| Engine.NoHits | lib/patterns.ts:155-168 | when no rule hits, nothing is reported |
| Engine.SingleHit | lib/patterns.ts:155-168 | when exactly one rule hits, the result is that rule alone with its outcome |
| Engine.HitOutcomes | lib/patterns.ts:156-166 | a reported rule is from the catalog; it took the regex path iff it compiled; a regex-path hit has at least one match and exactly the engine's count; a fallback hit's text occurs in the input |
| Engine.LiteralRuleHits | lib/patterns.ts:157-165 | under a conforming engine, a rule without syntax is reported iff `includes` finds its text, and always through the regular-expression path |
| Engine.LiteralRuleOnce | lib/patterns.ts:157-161 | under a conforming engine, a non-empty rule without syntax whose text occurs at exactly one position of a BMP text is reported with one match |
| Engine.FragmentRuleCounts | lib/patterns.ts:157-161 | under a conforming engine, a BMP rule in the fragment is reported with exactly the fragment's non-zero count on a BMP text |
| Engine.LiteralRuleFindsItself | lib/patterns.ts:157-161 | under a conforming engine, a non-empty rule without syntax is reported with exactly one match in its own text |
| Engine.PlainRuleMissesEmpty | lib/patterns.ts:156-166 | a non-empty rule not ending in `?` is not reported for the empty text: in the fragment it needs a character, outside it `includes` fails, and an uncovered compiled rule finds nothing by premise |
| Engine.EmptyTextNoHits | lib/patterns.ts:155-168 | under a conforming engine, on a catalog of plain rules (non-empty, not ending in `?`), the empty text yields no hits, given as a premise that every compiled rule the BMP fragment does not cover finds nothing in "" |
| Engine.Occurrences | lib/patterns.ts:181 | a hit stands for at least one occurrence exactly when it is a fallback hit or has a non-zero count |
| Engine.RawScore | lib/patterns.ts:179-183 | the weighted occurrences of no hits are 0 |
| Engine.RawScorePositive | lib/patterns.ts:179-183 | the raw score is positive iff some hit has positive weight and at least one occurrence |
| Engine.RawScoreAppend | lib/patterns.ts:178-183 | the raw score is additive over the hit list |
| Engine.RawScoreCovers | lib/patterns.ts:179-182 | the raw score is at least any single hit's weight × occurrences |
| Engine.RawScoreAgrees | lib/patterns.ts:180 | two weightings that agree on the severities present give the same raw score |
| Engine.TotalOfCollect | lib/patterns.ts:178-183 | a scoring loop whose records are each worth their hit's weight × occurrences sums to the raw score |
| Engine.RoundHalfUp | lib/patterns.ts:186 | `Math.round` of a non-negative quotient is the nearest integer, with halves rounded up |
| Engine.Normalize | lib/patterns.ts:176-186 | the score is at most 100; it is 0 for an empty text; it is 100 iff 4000·raw ≥ 199·length; below the cap it is 2000·raw/length rounded |
| Engine.NormalizeMonotone | lib/patterns.ts:186 | more weighted occurrences never lower the score |
| Engine.NormalizeDensity | lib/patterns.ts:186 | the same weighted occurrences in a longer text never raise the score |
| Engine.Utf16Length | lib/patterns.ts:175 | `text.length` lies between the number of characters and twice that |
| Engine.Utf16LengthBmp | lib/patterns.ts:175 | within the Basic Multilingual Plane, `text.length` is the number of characters |
| Patterns.Weight | lib/patterns.ts:180 | high weighs 15, medium 8 and low 3, each iff |
| Patterns.Points | lib/patterns.ts:180-182 | a detection is worth at least its weight, and exactly its weight when it has at most one match (`Math.max(matches.length, 1)`) |
| Patterns.DetectPatterns | lib/patterns.ts:153-170 | the loop with its try/catch returns the specification `Detect` of the catalog |
| Patterns.CalculateAIScore | lib/patterns.ts:173-188 | the loop returns the specification `AIScore`, which is at most 100, and 0 for the empty text |
| Patterns.DetectFollowsCatalog | lib/patterns.ts:153-170 | results are an order-preserving selection of the catalog: exactly the rules that hit, each once, in catalog order |
| Patterns.DetectMatchCounts | lib/patterns.ts:156-166 | a compiled rule is reported with its full, non-zero match count; a rule that throws is reported with an empty match list, and only when its text occurs in the input |
| Patterns.HighHitSaturates | lib/patterns.ts:180-186 | a single high-severity detection caps the score of any text of 1 to 301 code units at 100 |
| Patterns.LoneHit | lib/patterns.ts:153-188 | when one high rule matches once and nothing else hits, detection reports that rule alone, and the score of a text of 1 to 301 code units is 100 |
| Patterns.Zh008Entry | lib/patterns.ts:36-37 | catalog index 7 is the high rule zh008, with the syntax-free BMP text "值得注意的是" |
| Patterns.Zh008FindsOnce | lib/patterns.ts:36-37 | under a conforming engine, zh008 is reported with one match in any BMP text containing its phrase exactly once |
| Patterns.Zh008Alone | lib/patterns.ts:36-37 | for any BMP text containing "值得注意的是" exactly once that no other rule hits, detection reports zh008 with one match, the score is the normalised 15, and it is 100 for a text of at most 301 code units |
| Patterns.En005Entry | lib/patterns.ts:98-99 | catalog index 31 is the medium rule en005 with source `[Ff]urthermore` |
| Patterns.En005Thrice | lib/patterns.ts:98-99 | under a conforming engine, en005 matches "Furthermore furthermore Furthermore" three times |
| Patterns.MediumThrice | lib/patterns.ts:180-182 | a medium rule with three matches is worth 3 × 8 = 24 |
| Patterns.ThreeFurthermores | lib/patterns.ts:98-99 | under a conforming engine, if no other rule hits "Furthermore furthermore Furthermore", detection reports en005 with three matches, the raw score is 3 × 8 = 24 and the score is 100 |
| Patterns.DetectTwice | lib/patterns.ts:153-170 | two runs of detection on the same text give identical results |
| Patterns.ChineseIsPlain | lib/patterns.ts:15-86 | no Chinese rule is empty or ends in `?` |
| Patterns.EnglishIsPlain | lib/patterns.ts:87-149 | no English rule is empty or ends in `?` |
| Patterns.CatalogIsPlain | lib/patterns.ts:14-150 | no rule of the catalog is empty or ends in `?` |
| Patterns.DetectEmpty | lib/patterns.ts:153-188 | `detectPatterns("")` is empty and `calculateAIScore("")` is 0, given that every compiled rule outside the modelled BMP fragment finds nothing in "" |
| Rewrite.Weight | app/api/rewrite/route.ts:51 | a weight is 15 or 8, and 15 exactly for high |
| Rewrite.Points | app/api/rewrite/route.ts:51 | a record is worth 0 only with a zero count, and otherwise at least its weight |
| Rewrite.DetectPatterns | app/api/rewrite/route.ts:28-44 | the inline loop returns the inline specification `Detect` |
| Rewrite.CalculateScore | app/api/rewrite/route.ts:46-54 | the inline scoring loop returns `Score`, which is at most 100, and 0 for the empty text |
| Rewrite.DetectCounts | app/api/rewrite/route.ts:29-43 | inline results follow catalog order at strictly increasing positions; each count is ≥ 1; on the regex path it is the engine's match count; on the fallback path it is exactly 1 and the rule's text occurs |
| Rewrite.SameScoreWithoutLow | app/api/rewrite/route.ts:46-54 | on any catalog without low-severity rules, the inline score equals the canonical `calculateAIScore` |
| Rewrite.SameDetectionsAsPatterns | app/api/rewrite/route.ts:35-39 | both copies report the same rules in the same order; the inline count is the canonical `max(matches.length, 1)` |
| Rewrite.InlineScoreIsCanonical | app/api/rewrite/route.ts:4-26 | the inline catalog has no low rule, so the endpoint's scores are the canonical score of that catalog |
| Rewrite.InlineCatalogDrift | app/api/rewrite/route.ts:4-26 | every inline rule has a canonical twin with the same id and severity, and the same pattern except en001 and en002 (missing " that" and " into"); the inline order differs from the canonical one |
| Rewrite.CatalogIsPlain | app/api/rewrite/route.ts:4-26 | no inline rule is empty or ends in `?` |
| Rewrite.DetectEmpty | app/api/rewrite/route.ts:28-54 | the inline `detectPatterns("")` is empty and `calculateScore("")` is 0, given that every compiled rule outside the modelled BMP fragment finds nothing in "" |
| Rewrite.ErrorMessage | app/api/rewrite/route.ts:110-112 | a thrown `Error` yields its message, any other thrown value "Internal error" |
| Rewrite.CheckText | app/api/rewrite/route.ts:69-74 | text is accepted iff it is a non-empty string of at most 10000 code units; "Text is required" iff it is missing, non-string or empty; "Max 10,000 characters" iff it is a longer string |
| Rewrite.ModeOrDefault | app/api/rewrite/route.ts:68 | the default 'balanced' applies to a missing mode only |
| Rewrite.Intensity | app/api/rewrite/route.ts:84 | light → "Minimal changes.", aggressive → "Aggressively rewrite.", and every other mode → "Balanced.", each iff |
| Rewrite.MaxTokens | app/api/rewrite/route.ts:96 | the token bound is the smaller of twice the text length and 4096 |
| Rewrite.RewrittenText | app/api/rewrite/route.ts:101 | a non-empty completion replaces the text; a missing or empty one leaves the original; a non-empty original never becomes empty |
| Rewrite.AcceptedTextTokens | app/api/rewrite/route.ts:72-96 | an accepted text asks for 2 to 4096 tokens, exactly twice its length up to 2048 code units |
| Rewrite.HasKey | app/api/rewrite/route.ts:79-80 | `!apiKey` rejects both an unset and an empty key; a configured key is non-empty |
| Rewrite.Post | app/api/rewrite/route.ts:66-114 | the handler answers, in order: 500 for an unreadable body; 400 for rejected text; 500 without an API key; 500 with the thrown message when the service fails. Otherwise it returns both scores, the two detection counts, the original detections and the mode. Scores are ≤ 100, and an unchanged text keeps its score and count |

## Left out

- `app/page.tsx` and `app/layout.tsx`: the user interface and page shell. They state and compute nothing about detection; the colour thresholds only affect display.
- The network side of `POST`: the service is a function parameter. The request to `api.openai.com` is not modelled: headers, model name, temperature, the system prompt text and JSON encoding. Only the intensity line, the user text and `max_tokens` are passed on.
- `process.env.OPENAI_API_KEY` is a parameter `apiKey`. `req.json()` is the `Body` datatype.
- Concurrency and `async`: the handler awaits in sequence, which the sequential method reflects.
- Matching.Count: covers only literal characters, simple classes and a greedy `?` after one atom. The catalog's negated classes, `+`, `*` (zh021), groups, alternation, lookbehind and lookahead are not modelled; nor are `.`, escapes, anchors and `{}` quantifiers, which the catalog does not use outside classes. For such rules the engine is the abstract `Regex` value and is unconstrained: `Conforms` says nothing about a source that `Parse` rejects.
- Matching: compares characters, not UTF-16 code units. It differs from JavaScript only for patterns or texts with characters outside the Basic Multilingual Plane. Lengths use `Utf16Length` throughout.
- `RegExpMatchArray` contents (match positions and groups): scoring uses only the number of matches.
- Engine.Normalize: exact integer round-half-up of 2000·raw/length. The source computes `score / (chars / 1000) * 2` in floating point, and could round differently at an exact .5.
- `category`, `language` and `alternatives` of a catalog entry: no computation reads them.
- The catalogs are parameters of the detection methods, not module globals. The constant `PATTERNS` of each module is the catalog the source uses.
- Rewrite.RewrittenText: the completion's content is an optional string. A truthy non-string `content` is not modelled.
- Rewrite.Post: a `mode` that is present but not a string, such as `null` or a number, maps to "Balanced." and is echoed unchanged. The model keeps it only as "not a string".
- Patterns.Zh008Alone and Patterns.ThreeFurthermores: these take as a hypothesis that no other rule hits the example text. Deciding that for every rule would need the full ECMAScript semantics of rules outside the fragment.
- Engine.Conforms: constrains the engine only on sources and texts inside the Basic Multilingual Plane. Outside it, JavaScript matches UTF-16 code units and `Matching` matches characters, so `/[😀]/g` finds two matches in "😀" where `Matching` finds one. Every lemma built on `Conforms` therefore speaks only about BMP input, Patterns.Zh008FindsOnce and Patterns.Zh008Alone included, although for a non-empty BMP literal such as "值得注意的是" the code-unit count would agree with the character count on any text.
- Patterns.DetectEmpty and Rewrite.DetectEmpty: these take as a premise that a compiled rule the fragment does not cover finds nothing in "" (negated classes, `+`, groups, alternation and lookbehind), and, for a fragment rule, that its source is in the Basic Multilingual Plane or else finds nothing in "". Every catalog source is in fact in the plane and every rule needs at least one character, but the model does not check the long literals character by character.
