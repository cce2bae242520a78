/**
 The `GET /api/sentiment` handler: lowercase the text, look for keywords by
 substring search (negative ones first, then positive ones) and answer with a
 one-entry map from "sentiment" to the label.
 */
module SentimentController {
  import opened Strings

  const Negative: String := "negative"
  const Positive: String := "positive"
  const Neutral: String := "neutral"

  /** The single key of the response map. */
  const SentimentKey: String := "sentiment"

  predicate IsLabel(sentiment: String) {
    sentiment == Negative || sentiment == Positive || sentiment == Neutral
  }

  /** The label for `text`: the if / else-if / else chain of `analyzeSentiment`. */
  function Classify(text: String): (sentiment: String)
    ensures IsLabel(sentiment)
  {
    var normalized := ToLower(text);
    if Contains(normalized, "bad") || Contains(normalized, "hate") then
      Negative
    else if Contains(normalized, "great") || Contains(normalized, "love") || Contains(normalized, "good") then
      Positive
    else
      Neutral
  }

  /** The response body of `analyzeSentiment`: exactly one entry, "sentiment", holding the label. */
  function Analyze(text: String): (response: map<String, String>)
    ensures response.Keys == {SentimentKey}
    ensures |response| == 1
    ensures IsLabel(response[SentimentKey])
    ensures response[SentimentKey] == Classify(text)
  {
    map[SentimentKey := Classify(text)]
  }

  /**
   Reference reading of "the text mentions the keyword": the keyword occurs,
   at some index, in the lowercased text.
   */
  ghost predicate Mentions(text: String, keyword: String) {
    exists i :: OccursAt(ToLower(text), keyword, i)
  }

  ghost predicate MentionsNegative(text: String) {
    Mentions(text, "bad") || Mentions(text, "hate")
  }

  ghost predicate MentionsPositive(text: String) {
    Mentions(text, "great") || Mentions(text, "love") || Mentions(text, "good")
  }

  /** The search used by `Classify` decides `Mentions` for every keyword. */
  lemma ContainsDecidesMentions(text: String)
    ensures forall keyword :: Contains(ToLower(text), keyword) <==> Mentions(text, keyword)
  {
    forall keyword ensures Contains(ToLower(text), keyword) <==> Mentions(text, keyword) {
      ContainsIffOccurs(ToLower(text), keyword);
    }
  }

  /** "negative" exactly when "bad" or "hate" occurs, whatever positive keyword occurs too. */
  lemma NegativeIff(text: String)
    ensures Classify(text) == Negative <==> MentionsNegative(text)
  {
    ContainsDecidesMentions(text);
  }

  /** "positive" exactly when no negative keyword occurs and "great", "love" or "good" does. */
  lemma PositiveIff(text: String)
    ensures Classify(text) == Positive <==> !MentionsNegative(text) && MentionsPositive(text)
  {
    ContainsDecidesMentions(text);
  }

  /** "neutral" exactly when none of the five keywords occurs. */
  lemma NeutralIff(text: String)
    ensures Classify(text) == Neutral <==> !MentionsNegative(text) && !MentionsPositive(text)
  {
    ContainsDecidesMentions(text);
  }

  /** Negative before positive: a text with keywords of both kinds is "negative". */
  lemma NegativeTakesPrecedence(text: String)
    requires MentionsNegative(text) && MentionsPositive(text)
    ensures Classify(text) == Negative
  {
    NegativeIff(text);
  }

  /** Normalisation is applied once and is idempotent, so case does not matter. */
  lemma CaseInsensitive(text: String)
    ensures Classify(ToLower(text)) == Classify(text)
  {
    ToLowerIdempotent(text);
  }

  /** Characters that are equal, or the same ASCII letter once in upper and once in lower case. */
  ghost predicate SameLetterIgnoringCase(c: char, d: char) {
    || c == d
    || (IsUpper(c) && d as int == c as int + 32)
    || (IsUpper(d) && c as int == d as int + 32)
  }

  /** Texts that differ only in the case of ASCII letters. */
  ghost predicate EqualIgnoringCase(a: String, b: String) {
    |a| == |b| && forall i :: 0 <= i < |a| ==> SameLetterIgnoringCase(a[i], b[i])
  }

  /** Case-insensitivity: texts equal up to case get the same label. */
  lemma SameLabelIgnoringCase(a: String, b: String)
    requires EqualIgnoringCase(a, b)
    ensures Classify(a) == Classify(b)
  {
    forall i | 0 <= i < |a| ensures ToLower(a)[i] == ToLower(b)[i] {
      assert SameLetterIgnoringCase(a[i], b[i]);
    }
    assert ToLower(a) == ToLower(b);
  }

  /** The empty text mentions no keyword. */
  lemma EmptyIsNeutral()
    ensures Classify([]) == Neutral
  {
  }

  /**
   Substring, not word, matching: a negative keyword written in any case and
   embedded anywhere, also inside a longer word, makes the text "negative".
   */
  lemma EmbeddedNegative(pre: String, word: String, post: String)
    requires ToLower(word) == "bad" || ToLower(word) == "hate"
    ensures Classify(pre + word + post) == Negative
  {
    ToLowerAppend(pre + word, post);
    ToLowerAppend(pre, word);
    assert ToLower(pre + word + post) == ToLower(pre) + ToLower(word) + ToLower(post);
    ContainsInfix(ToLower(pre), ToLower(word), ToLower(post));
  }

  /**
   A positive keyword written in any case and embedded anywhere makes the text
   "positive" as long as no negative keyword occurs.
   */
  lemma EmbeddedPositive(pre: String, word: String, post: String)
    requires ToLower(word) == "great" || ToLower(word) == "love" || ToLower(word) == "good"
    requires !MentionsNegative(pre + word + post)
    ensures Classify(pre + word + post) == Positive
  {
    ToLowerAppend(pre + word, post);
    ToLowerAppend(pre, word);
    assert ToLower(pre + word + post) == ToLower(pre) + ToLower(word) + ToLower(post);
    ContainsInfix(ToLower(pre), ToLower(word), ToLower(post));
    NegativeIff(pre + word + post);
  }

  /** "badminton" is no word "bad", yet the text is "negative". */
  lemma BadmintonIsNegative()
    ensures Classify("badminton club") == Negative
  {
    EmbeddedNegative([], "bad", "minton club");
  }

  /** A text with no letter B, in either case, nor H has no negative keyword. */
  lemma NoNegativeLetters(text: String)
    requires 'b' !in text && 'B' !in text && 'h' !in text && 'H' !in text
    ensures !MentionsNegative(text)
  {
    var normalized := ToLower(text);
    ContainsDecidesMentions(text);
    ToLowerLetterOrigin(text, 'b');
    ContainsNeedsChar(normalized, "bad", 'b');
    ToLowerLetterOrigin(text, 'h');
    ContainsNeedsChar(normalized, "hate", 'h');
  }

  /** A text in which no lowered H is directly followed by a lowered A does not mention "hate". */
  lemma NoHateWithoutHA(text: String)
    requires forall i :: 0 <= i < |text| - 1 ==> !(LowerChar(text[i]) == 'h' && LowerChar(text[i + 1]) == 'a')
    ensures !Mentions(text, "hate")
  {
    forall i ensures !OccursAt(ToLower(text), "hate", i) {
      if 0 <= i && i + 4 <= |text| {
        var window := ToLower(text)[i..i + 4];
        assert window[0] == LowerChar(text[i]) && window[1] == LowerChar(text[i + 1]);
        assert "hate"[0] == 'h' && "hate"[1] == 'a';
      }
    }
  }

  /**
   A text with no letter B, in either case, and no H directly followed by an A,
   in any case, has no negative keyword.
   */
  lemma NoNegativeWithoutBOrHA(text: String)
    requires 'b' !in text && 'B' !in text
    requires forall i :: 0 <= i < |text| - 1 ==> !(LowerChar(text[i]) == 'h' && LowerChar(text[i + 1]) == 'a')
    ensures !MentionsNegative(text)
  {
    ContainsDecidesMentions(text);
    ToLowerLetterOrigin(text, 'b');
    ContainsNeedsChar(ToLower(text), "bad", 'b');
    NoHateWithoutHA(text);
  }

  /**
   A text with none of the letters B, H, R, L and D, in either case, has none
   of the five keywords and is "neutral".
   */
  lemma NeutralWithoutKeywordLetters(text: String)
    requires 'b' !in text && 'B' !in text && 'h' !in text && 'H' !in text
    requires 'r' !in text && 'R' !in text && 'l' !in text && 'L' !in text && 'd' !in text && 'D' !in text
    ensures Classify(text) == Neutral
  {
    var normalized := ToLower(text);
    NoNegativeLetters(text);
    ContainsDecidesMentions(text);
    ToLowerLetterOrigin(text, 'r');
    ContainsNeedsChar(normalized, "great", 'r');
    ToLowerLetterOrigin(text, 'l');
    ContainsNeedsChar(normalized, "love", 'l');
    ToLowerLetterOrigin(text, 'd');
    ContainsNeedsChar(normalized, "good", 'd');
    NeutralIff(text);
  }

  // Worked examples of the endpoint's answers.

  lemma ExampleHate()
    ensures Classify("I hate this") == Negative
  {
    assert "I hate this" == "I " + "hate" + " this";
    EmbeddedNegative("I ", "hate", " this");
  }

  lemma ExampleOkay()
    ensures Classify("It's okay I guess") == Neutral
  {
    NeutralWithoutKeywordLetters("It's okay I guess");
  }

  /** Every letter of "hate" occurs here, but no H is directly followed by an A. */
  lemma ExampleThisIsGreat()
    ensures Classify("This is great!") == Positive
  {
    NoNegativeWithoutBOrHA("This is great!");
    assert "This is great!" == "This is " + "great" + "!";
    assert ToLower("great")[0] == 'g';
    EmbeddedPositive("This is ", "great", "!");
  }

  lemma ExampleLoveToHate()
    ensures Classify("I love to hate mondays") == Negative
  {
    assert "I love to hate mondays" == "I love to " + "hate" + " mondays";
    EmbeddedNegative("I love to ", "hate", " mondays");
  }

  lemma ExampleGoodStuff()
    ensures Classify("GOOD stuff") == Positive
  {
    assert ToLower("GOOD")[0] == 'g';
    assert "GOOD stuff" == [] + "GOOD" + " stuff";
    NoNegativeLetters("GOOD stuff");
    EmbeddedPositive([], "GOOD", " stuff");
  }

  /** "GREAT", "Great" and "great" are all "positive". */
  lemma ExampleGreatAnyCase()
    ensures Classify("GREAT") == Positive && Classify("Great") == Positive && Classify("great") == Positive
  {
    assert ToLower("GREAT")[0] == 'g' && ToLower("Great")[0] == 'g';
    assert "GREAT" == [] + "GREAT" + [] && "Great" == [] + "Great" + [] && "great" == [] + "great" + [];
    NoNegativeLetters("GREAT");
    NoNegativeLetters("Great");
    NoNegativeLetters("great");
    EmbeddedPositive([], "GREAT", []);
    EmbeddedPositive([], "Great", []);
    EmbeddedPositive([], "great", []);
  }
}
