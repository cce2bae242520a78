# Sentiment classifier of the `GET /api/sentiment` endpoint

This project models the one piece of logic in the service: the handler
`SentimentController.analyzeSentiment`. It takes the `text` query parameter
and lowercases it. It then searches the lowercased text for keywords, in a
fixed priority:

1. `"bad"` or `"hate"` gives `"negative"`;
2. otherwise `"great"`, `"love"` or `"good"` gives `"positive"`;
3. otherwise the label is `"neutral"`.

It answers with a one-entry map from `"sentiment"` to that label.

The model has two modules. Both are pure functions with lemmas, as the
handler is: it has no fields, no loops and no state.

- `Strings` (`strings.dfy`) models the two `java.lang.String` operations the
  handler calls. `Contains` is substring search. It tries each start
  position from the left and is proved equal to an index-based reference
  definition, `OccursAt`. `ToLower` is ASCII lowercasing.
- `SentimentController` (`sentiment_controller.dfy`) models the handler.
  `Classify` is the if / else-if / else chain and `Analyze` is the response
  map. Three lemmas state when each label is returned, both directions,
  against the reference reading `Mentions`: the keyword occurs at some index
  of the lowercased text. Further lemmas cover negative-before-positive
  precedence, case-insensitivity, the empty text and substring (not word)
  matching, and worked examples of the endpoint's answers.

## Model

| member | source | states |
|---|---|---|
| Strings.Contains | src/main/java/com/example/micrometerdemo/web/SentimentController.java:19-21 | `s.contains(sub)`: a found keyword is never longer than the text, and the empty string is contained in every text |
| Strings.ContainsIffOccurs | src/main/java/com/example/micrometerdemo/web/SentimentController.java:19-21 | the left-to-right search succeeds exactly when `sub` occurs at some index of `s` (both directions) |
| Strings.OccurrenceFound | src/main/java/com/example/micrometerdemo/web/SentimentController.java:19-21 | an occurrence at any index, not only the first position, is found by the search |
| Strings.ContainsInfix | src/main/java/com/example/micrometerdemo/web/SentimentController.java:19-21 | a keyword embedded anywhere, whatever text surrounds it, is found |
| Strings.ContainsNeedsChar | src/main/java/com/example/micrometerdemo/web/SentimentController.java:19-21 | every character of a contained string occurs in the text, so a missing letter rules the keyword out |
| Strings.ToLower | src/main/java/com/example/micrometerdemo/web/SentimentController.java:16 | `text.toLowerCase()`: the length is kept and each character is lowered on its own |
| Strings.ToLowerSpec | src/main/java/com/example/micrometerdemo/web/SentimentController.java:16 | no upper-case ASCII letter is left, `'A'..'Z'` move up by 32 to `'a'..'z'`, and every other character is unchanged |
| Strings.ToLowerIdempotent | src/main/java/com/example/micrometerdemo/web/SentimentController.java:16 | lowercasing an already lowercased text changes nothing |
| Strings.ToLowerAppend | src/main/java/com/example/micrometerdemo/web/SentimentController.java:16 | lowercasing distributes over concatenation |
| Strings.ToLowerLetterOrigin | src/main/java/com/example/micrometerdemo/web/SentimentController.java:16 | a lower-case letter in the lowercased text comes from that letter or its upper-case form in the input |
| SentimentController.Classify | src/main/java/com/example/micrometerdemo/web/SentimentController.java:16-25 | the label is always one of `"negative"`, `"positive"`, `"neutral"` |
| SentimentController.Analyze | src/main/java/com/example/micrometerdemo/web/SentimentController.java:27 | the response map has exactly one key, `"sentiment"`, and its value is the computed label |
| SentimentController.ContainsDecidesMentions | src/main/java/com/example/micrometerdemo/web/SentimentController.java:19-21 | the `contains` tests on the lowercased text decide, for every keyword, whether it occurs at some index |
| SentimentController.NegativeIff | src/main/java/com/example/micrometerdemo/web/SentimentController.java:19-20 | `"negative"` exactly when `"bad"` or `"hate"` occurs in the lowercased text, whatever else occurs |
| SentimentController.PositiveIff | src/main/java/com/example/micrometerdemo/web/SentimentController.java:19-22 | `"positive"` exactly when neither `"bad"` nor `"hate"` occurs and at least one of `"great"`, `"love"`, `"good"` does |
| SentimentController.NeutralIff | src/main/java/com/example/micrometerdemo/web/SentimentController.java:19-24 | `"neutral"` exactly when none of the five keywords occurs |
| SentimentController.NegativeTakesPrecedence | src/main/java/com/example/micrometerdemo/web/SentimentController.java:19-22 | a text with both a negative and a positive keyword is `"negative"` |
| SentimentController.CaseInsensitive | src/main/java/com/example/micrometerdemo/web/SentimentController.java:16 | classifying the lowercased text gives the same label as classifying the text |
| SentimentController.SameLabelIgnoringCase | src/main/java/com/example/micrometerdemo/web/SentimentController.java:16 | two texts that differ only in the case of ASCII letters (at each index the characters are equal, or one is in `'A'..'Z'` and the other is that letter plus 32) get the same label |
| SentimentController.EmptyIsNeutral | src/main/java/com/example/micrometerdemo/web/SentimentController.java:16-24 | the empty text is `"neutral"` |
| SentimentController.EmbeddedNegative | src/main/java/com/example/micrometerdemo/web/SentimentController.java:19-20 | `"bad"` or `"hate"` in any case, embedded anywhere (also inside a longer word), makes the text `"negative"` |
| SentimentController.EmbeddedPositive | src/main/java/com/example/micrometerdemo/web/SentimentController.java:19-22 | `"great"`, `"love"` or `"good"` in any case, embedded anywhere, makes a text without negative keywords `"positive"` |
| SentimentController.BadmintonIsNegative | src/main/java/com/example/micrometerdemo/web/SentimentController.java:19 | `"badminton club"` is `"negative"`: matching is by substring, not by word |
| SentimentController.NoNegativeLetters | src/main/java/com/example/micrometerdemo/web/SentimentController.java:19-20 | a text without the letters B and H, in either case, has no negative keyword |
| SentimentController.NoHateWithoutHA | src/main/java/com/example/micrometerdemo/web/SentimentController.java:19 | a text in which no H is directly followed by an A, in any case, does not mention `"hate"` |
| SentimentController.NoNegativeWithoutBOrHA | src/main/java/com/example/micrometerdemo/web/SentimentController.java:19-20 | a text without the letter B, in either case, and without an H directly followed by an A has no negative keyword |
| SentimentController.NeutralWithoutKeywordLetters | src/main/java/com/example/micrometerdemo/web/SentimentController.java:19-24 | a text without the letters B, H, R, L and D, in either case, is `"neutral"` |
| SentimentController.ExampleThisIsGreat | src/main/java/com/example/micrometerdemo/web/SentimentController.java:16-22 | `"This is great!"` is `"positive"` |
| SentimentController.ExampleHate | src/main/java/com/example/micrometerdemo/web/SentimentController.java:16-20 | `"I hate this"` is `"negative"` |
| SentimentController.ExampleOkay | src/main/java/com/example/micrometerdemo/web/SentimentController.java:16-24 | `"It's okay I guess"` is `"neutral"` |
| SentimentController.ExampleLoveToHate | src/main/java/com/example/micrometerdemo/web/SentimentController.java:16-22 | `"I love to hate mondays"` is `"negative"` although it also says `"love"` |
| SentimentController.ExampleGoodStuff | src/main/java/com/example/micrometerdemo/web/SentimentController.java:16-22 | `"GOOD stuff"` is `"positive"` |
| SentimentController.ExampleGreatAnyCase | src/main/java/com/example/micrometerdemo/web/SentimentController.java:16-22 | `"GREAT"`, `"Great"` and `"great"` are all `"positive"` |

## Left out

- Strings.ToLower: models ASCII case mapping only, in the root locale. Java's `String.toLowerCase()` uses the default locale and full Unicode case mapping. The model differs from it in three ways:
  - it makes no claim about non-ASCII input: Java also lowers non-ASCII letters, and some mappings change the length of the string;
  - under a Turkish or Azeri default locale, Java lowers the ASCII letter `'I'` to the dotless `'ı'` (U+0131), not to `'i'`;
  - Java counts UTF-16 code units, while a `char` here is a Unicode scalar value, so `|ToLower(s)| == |s|` counts lengths differently for characters outside the Basic Multilingual Plane.
- None of these gaps changes what `Classify` returns, though this is argued here and not proved. No keyword contains `'i'`. The only non-ASCII characters that Java lowers to ASCII are U+0130 (to `'i'` followed by U+0307) and the Kelvin sign U+212A (to `'k'`), and neither gives a keyword letter.
- The Spring annotations (`@RestController`, `@RequestMapping`, `@GetMapping`, `@RequestParam`) are left out. They are routing and parameter binding with no logic of their own. Rejecting a request without `text` is done by the framework before the handler runs. So `Classify` and `Analyze` take any string, the empty one included.
- JSON serialisation of the response map is left out. The framework does it. `Analyze` stops at the map itself.
- Concurrency is left out: the handler is stateless and has nothing shared to model.
