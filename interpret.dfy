/** The intent parser: scores each declared intent by how many of its keywords
    occur in the normalised utterance, picks the first intent with the highest
    non-zero score, captures that intent's parameters, and turns the result
    into a templated reply. */
module Interpret {
  import opened Wrappers
  import opened Text
  import opened Regex

  /** A named parameter and the pattern whose first group captures it. */
  datatype ParamRule = ParamRule(name: string, pattern: string)

  /** One entry of the intent table. */
  datatype IntentRule = IntentRule(name: string, keywords: seq<string>, params: seq<ParamRule>)

  /** What `extract_intent` returns. `confidence` is in hundredths
      (`round(score / len(keywords), 2)` times 100). */
  datatype IntentResult = IntentResult(
    intent: string,
    parameters: map<string, string>,
    confidence: nat,
    originalText: string)

  const Unknown: string := "unknown"

  /** The intent table, in declaration order (the order breaks ties). */
  const IntentPatterns: seq<IntentRule> := [
    IntentRule("book_appointment",
      ["book", "appointment", "schedule", "meeting", "reserve"],
      [ParamRule("date", "(monday|tuesday|wednesday|thursday|friday|saturday|sunday|tomorrow|today|\\d{1,2}(?:st|nd|rd|th)?)"),
       ParamRule("time", "(\\d{1,2}(?::\\d{2})?\\s*(?:am|pm|o'clock))"),
       ParamRule("service", "(consultation|checkup|meeting|call|session)")]),
    IntentRule("get_weather",
      ["weather", "forecast", "temperature", "rain", "sunny", "cloudy"],
      [ParamRule("location", "in\\s+([a-zA-Z\\s]+)"),
       ParamRule("time", "(today|tomorrow|this week|next week)")]),
    IntentRule("set_reminder",
      ["remind", "reminder", "alert", "notify"],
      [ParamRule("task", "to\\s+([^.!?]+)"),
       ParamRule("time", "(in\\s+\\d+\\s+(?:minutes?|hours?|days?)|at\\s+\\d{1,2}(?::\\d{2})?\\s*(?:am|pm))")]),
    IntentRule("play_music",
      ["play", "music", "song", "artist", "album"],
      [ParamRule("song", "play\\s+([^.!?]+)"),
       ParamRule("artist", "by\\s+([a-zA-Z\\s]+)")]),
    IntentRule("get_directions",
      ["directions", "navigate", "route", "way to", "how to get"],
      [ParamRule("destination", "to\\s+([^.!?]+)"),
       ParamRule("from", "from\\s+([a-zA-Z\\s]+)")]),
    IntentRule("general_question",
      ["what", "how", "when", "where", "why", "tell me", "explain"],
      [ParamRule("topic", "(?:what|how|when|where|why).*?([^.!?]+)")])
  ]

  /** Distinct intent names, none of them "unknown", every intent with between
      one and seven non-empty keywords, and distinct parameter names per intent. */
  ghost predicate WellFormed(rules: seq<IntentRule>) {
    && (forall i, j :: 0 <= i < j < |rules| ==> rules[i].name != rules[j].name)
    && (forall i :: 0 <= i < |rules| ==> rules[i].name != Unknown)
    && (forall i :: 0 <= i < |rules| ==> 0 < |rules[i].keywords| <= 7)
    && (forall i, k :: 0 <= i < |rules| && 0 <= k < |rules[i].keywords| ==> rules[i].keywords[k] != "")
    && (forall i :: 0 <= i < |rules| ==> ParamNamesDistinct(rules[i].params))
  }

  ghost predicate ParamNamesDistinct(params: seq<ParamRule>) {
    forall i, j :: 0 <= i < j < |params| ==> params[i].name != params[j].name
  }

  // ---------------------------------------------------------------------------
  // Scoring

  /** The score of an intent: how many of its keywords occur in `t`. */
  function Score(keywords: seq<string>, t: string): (n: nat)
    ensures n <= |keywords|
  {
    if keywords == [] then 0
    else
      Score(keywords[..|keywords| - 1], t) + (if Contains(t, keywords[|keywords| - 1]) then 1 else 0)
  }

  /** The indices of the keywords that occur in `t`. */
  ghost function Matched(keywords: seq<string>, t: string): set<nat> {
    set i: nat | i < |keywords| && Contains(t, keywords[i])
  }

  /** The score is the number of keywords that occur as a substring. */
  lemma {:induction false} ScoreCounts(keywords: seq<string>, t: string)
    ensures Score(keywords, t) == |Matched(keywords, t)|
  {
    if keywords != [] {
      var n := |keywords| - 1;
      var prefix := keywords[..n];
      ScoreCounts(prefix, t);
      assert forall i :: 0 <= i < n ==> prefix[i] == keywords[i];
      if Contains(t, keywords[n]) {
        assert Matched(keywords, t) == Matched(prefix, t) + {n};
      } else {
        assert Matched(keywords, t) == Matched(prefix, t);
      }
    }
  }

  /** A score of 0 means no keyword occurs; a full score means every keyword occurs. */
  lemma {:induction false} ScoreExtremes(keywords: seq<string>, t: string)
    ensures Score(keywords, t) == 0 <==> forall i :: 0 <= i < |keywords| ==> !Contains(t, keywords[i])
    ensures Score(keywords, t) == |keywords| <==> forall i :: 0 <= i < |keywords| ==> Contains(t, keywords[i])
  {
    if keywords != [] {
      var n := |keywords| - 1;
      ScoreExtremes(keywords[..n], t);
      assert forall i :: 0 <= i < n ==> keywords[..n][i] == keywords[i];
    }
  }

  /** The score of every rule, in table order (the `intent_scores` dict). */
  function Scores(rules: seq<IntentRule>, t: string): (s: seq<nat>)
    ensures |s| == |rules|
    ensures forall i :: 0 <= i < |rules| ==> s[i] <= |rules[i].keywords|
  {
    seq(|rules|, i requires 0 <= i < |rules| => Score(rules[i].keywords, t))
  }

  // ---------------------------------------------------------------------------
  // Selection

  /** `max(d, key=d.get)` over an insertion-ordered dict: the first index holding
      the maximum. */
  function ArgMax(s: seq<nat>): (b: nat)
    requires s != []
    ensures b < |s|
    ensures forall i :: 0 <= i < |s| ==> s[i] <= s[b]
    ensures forall i :: 0 <= i < b ==> s[i] < s[b]
  {
    if |s| == 1 then 0
    else
      var b := ArgMax(s[..|s| - 1]);
      if s[|s| - 1] > s[b] then |s| - 1 else b
  }

  /** `w` is where the first maximum of `s` sits. */
  ghost predicate FirstMax(s: seq<nat>, w: nat) {
    && w < |s|
    && (forall i :: 0 <= i < |s| ==> s[i] <= s[w])
    && (forall i :: 0 <= i < w ==> s[i] < s[w])
  }

  /** The first maximum is unique. */
  lemma FirstMaxUnique(s: seq<nat>, v: nat, w: nat)
    requires FirstMax(s, v) && FirstMax(s, w)
    ensures v == w
  {
    assert s[v] == s[w];
  }

  // ---------------------------------------------------------------------------
  // Parameters

  /** The parameters of one intent: every pattern that matched contributes its
      trimmed first group under its name. */
  function ParamsOf(params: seq<ParamRule>, t: string, search: Matcher): (m: map<string, string>)
    ensures forall k :: k in m ==>
              exists i :: 0 <= i < |params| && params[i].name == k
                && search(params[i].pattern, t).Some?
                && m[k] == Strip(search(params[i].pattern, t).value)
    ensures forall i :: 0 <= i < |params| && search(params[i].pattern, t).Some? ==> params[i].name in m
  {
    if params == [] then map[]
    else
      var n := |params| - 1;
      var m := ParamsOf(params[..n], t, search);
      assert forall i :: 0 <= i < n ==> params[..n][i] == params[i];
      match search(params[n].pattern, t)
      case None => m
      case Some(c) => m[params[n].name := Strip(c)]
  }

  /** With distinct names, a parameter is present exactly when its pattern
      matched, and then holds the trimmed capture. */
  lemma ParamsExact(params: seq<ParamRule>, t: string, search: Matcher, i: nat)
    requires ParamNamesDistinct(params)
    requires i < |params|
    ensures var m := ParamsOf(params, t, search);
            && (params[i].name in m <==> search(params[i].pattern, t).Some?)
            && (params[i].name in m ==> m[params[i].name] == Strip(search(params[i].pattern, t).value))
  {
    var m := ParamsOf(params, t, search);
    if params[i].name in m {
      var j :| 0 <= j < |params| && params[j].name == params[i].name
                && search(params[j].pattern, t).Some?
                && m[params[i].name] == Strip(search(params[j].pattern, t).value);
      assert j == i;
    }
  }

  // ---------------------------------------------------------------------------
  // Confidence

  /** `num / den` rounded to the nearest hundredth, in hundredths (halves up). */
  function Hundredths(num: nat, den: nat): (h: nat)
    requires den > 0
    ensures 2 * den * h <= 200 * num + den < 2 * den * (h + 1)
  {
    (200 * num + den) / (2 * den)
  }

  /** With at most seven keywords, `100 * score / len` is never exactly halfway
      between two integers, so Python's round-half-even and `Hundredths` agree. */
  lemma NoRoundingTie(num: nat, den: nat)
    requires 0 < den <= 7 && num <= den
    ensures (200 * num) % (2 * den) != den
  {
    assert den == 1 || den == 2 || den == 3 || den == 4 || den == 5 || den == 6 || den == 7;
    assert num <= 7;
    assert num == 0 || num == 1 || num == 2 || num == 3 || num == 4 || num == 5 || num == 6 || num == 7;
  }

  /** A positive score over at most 200 keywords rounds to between 0.01 and 1.00. */
  lemma HundredthsBounds(num: nat, den: nat)
    requires 0 < num <= den <= 200
    ensures 0 < Hundredths(num, den) <= 100
  {
    DivBounds(200 * num + den, 2 * den, 101);
  }

  lemma DivBounds(x: nat, d: nat, k: nat)
    requires 0 < d <= x < k * d
    ensures 1 <= x / d < k
  {
  }

  // ---------------------------------------------------------------------------
  // Classification

  /** `text.lower().strip()` */
  function Normalise(text: string): string {
    Strip(Lower(text))
  }

  /** `extract_intent` over a given (non-empty) table. As in the source, a
      winner whose own name is "unknown" is reported like no winner at all. */
  function Classify(rules: seq<IntentRule>, text: string, search: Matcher): (r: IntentResult)
    requires rules != []
    ensures r.originalText == text
  {
    var t := Normalise(text);
    var scores := Scores(rules, t);
    var best := ArgMax(scores);
    if scores[best] == 0 || rules[best].name == Unknown then IntentResult(Unknown, map[], 0, text)
    else
      var rule := rules[best];
      IntentResult(rule.name, ParamsOf(rule.params, t, search), Hundredths(scores[best], |rule.keywords|), text)
  }

  /** The intent is "unknown" exactly when no keyword of any intent occurs, and
      an unknown intent comes with no parameters and confidence 0. */
  lemma ClassifyUnknown(rules: seq<IntentRule>, text: string, search: Matcher)
    requires rules != [] && WellFormed(rules)
    ensures var r := Classify(rules, text, search);
            && (r.intent == Unknown <==>
                  forall i, k :: 0 <= i < |rules| && 0 <= k < |rules[i].keywords| ==>
                    !Contains(Normalise(text), rules[i].keywords[k]))
            && (r.intent == Unknown ==> r.parameters == map[] && r.confidence == 0)
  {
    var t := Normalise(text);
    var scores := Scores(rules, t);
    var best := ArgMax(scores);
    ClassifyZero(rules, text, search);
    if scores[best] == 0 {
      forall i, k | 0 <= i < |rules| && 0 <= k < |rules[i].keywords|
        ensures !Contains(t, rules[i].keywords[k])
      {
        assert scores[i] == 0;
        ScoreExtremes(rules[i].keywords, t);
      }
    } else {
      ScoreExtremes(rules[best].keywords, t);
      var k :| 0 <= k < |rules[best].keywords| && Contains(t, rules[best].keywords[k]);
    }
  }

  /** The intent is "unknown", with no parameters and confidence 0, exactly when
      the best score is 0. */
  lemma ClassifyZero(rules: seq<IntentRule>, text: string, search: Matcher)
    requires rules != [] && WellFormed(rules)
    ensures var scores := Scores(rules, Normalise(text));
            var r := Classify(rules, text, search);
            && (r.intent == Unknown <==> scores[ArgMax(scores)] == 0)
            && (r.intent == Unknown ==> r.parameters == map[] && r.confidence == 0)
  {
    var scores := Scores(rules, Normalise(text));
    assert rules[ArgMax(scores)].name != Unknown;
  }

  /** Empty or all-whitespace input has no keyword hit, so it is "unknown". */
  lemma ClassifyBlank(rules: seq<IntentRule>, text: string, search: Matcher)
    requires rules != [] && WellFormed(rules)
    requires forall i :: 0 <= i < |text| ==> IsSpace(text[i])
    ensures Classify(rules, text, search) == IntentResult(Unknown, map[], 0, text)
  {
    BlankNormalises(text);
    forall i, k | 0 <= i < |rules| && 0 <= k < |rules[i].keywords|
      ensures !Contains(Normalise(text), rules[i].keywords[k])
    {
      assert rules[i].keywords[k] != "";
    }
    ClassifyUnknown(rules, text, search);
    var r := Classify(rules, text, search);
    assert r.intent == Unknown && r.parameters == map[] && r.confidence == 0 && r.originalText == text;
  }

  /** Whitespace-only text normalises to the empty string. */
  lemma BlankNormalises(text: string)
    requires forall i :: 0 <= i < |text| ==> IsSpace(text[i])
    ensures Normalise(text) == []
  {
    assert forall i :: 0 <= i < |Lower(text)| ==> IsSpace(Lower(text)[i]);
  }

  /** A known intent is the first one, in table order, with the highest score,
      and that score is positive; conversely the first highest positive score
      always wins. */
  lemma ClassifyWinner(rules: seq<IntentRule>, text: string, search: Matcher, w: nat)
    requires rules != [] && WellFormed(rules) && w < |rules|
    ensures var s := Scores(rules, Normalise(text));
            Classify(rules, text, search).intent == rules[w].name <==> FirstMax(s, w) && s[w] > 0
  {
    var s := Scores(rules, Normalise(text));
    var best := ArgMax(s);
    assert FirstMax(s, best);
    if FirstMax(s, w) {
      FirstMaxUnique(s, w, best);
    }
    if s[best] > 0 && rules[best].name == rules[w].name {
      assert best == w;
    }
  }

  /** The confidence of a known intent is its score over its keyword count,
      rounded to hundredths, and lies in (0, 1]. */
  lemma ClassifyConfidence(rules: seq<IntentRule>, text: string, search: Matcher, w: nat)
    requires rules != [] && WellFormed(rules) && w < |rules|
    requires Classify(rules, text, search).intent == rules[w].name
    ensures var c := Classify(rules, text, search).confidence;
            var score := Score(rules[w].keywords, Normalise(text));
            var den := |rules[w].keywords|;
            && 0 < c <= 100
            && 2 * den * c <= 200 * score + den < 2 * den * (c + 1)
  {
    var s := Scores(rules, Normalise(text));
    ClassifyWinner(rules, text, search, w);
    HundredthsBounds(s[w], |rules[w].keywords|);
  }

  /** Only the winner's own parameter patterns are consulted: a parameter is
      present exactly when its pattern matched, and holds the trimmed capture. */
  lemma ClassifyParameters(rules: seq<IntentRule>, text: string, search: Matcher, w: nat)
    requires rules != [] && WellFormed(rules) && w < |rules|
    requires Classify(rules, text, search).intent == rules[w].name
    ensures var r := Classify(rules, text, search);
            var t := Normalise(text);
            var ps := rules[w].params;
            && (forall k :: k in r.parameters ==> exists i :: 0 <= i < |ps| && ps[i].name == k)
            && (forall i :: 0 <= i < |ps| ==>
                  (ps[i].name in r.parameters <==> search(ps[i].pattern, t).Some?)
                  && (ps[i].name in r.parameters ==>
                        r.parameters[ps[i].name] == Strip(search(ps[i].pattern, t).value)))
  {
    var t := Normalise(text);
    WinnerParameters(rules, text, search, w);
    forall i | 0 <= i < |rules[w].params| {
      ParamsExact(rules[w].params, t, search, i);
    }
  }

  /** The parameters of a known intent are those of its own patterns. */
  lemma WinnerParameters(rules: seq<IntentRule>, text: string, search: Matcher, w: nat)
    requires rules != [] && WellFormed(rules) && w < |rules|
    requires Classify(rules, text, search).intent == rules[w].name
    ensures Classify(rules, text, search).parameters == ParamsOf(rules[w].params, Normalise(text), search)
  {
    var s := Scores(rules, Normalise(text));
    var best := ArgMax(s);
    ClassifyWinner(rules, text, search, w);
    assert FirstMax(s, best);
    FirstMaxUnique(s, w, best);
  }

  /** The constant table is well formed. */
  lemma IntentPatternsWellFormed()
    ensures WellFormed(IntentPatterns)
  {
    IntentNamesDistinct();
    IntentNamesKnown();
    KeywordCounts();
    KeywordsNonEmpty();
    ParamNamesDistinctPerIntent();
  }

  lemma IntentNamesDistinct()
    ensures forall i, j :: 0 <= i < j < |IntentPatterns| ==> IntentPatterns[i].name != IntentPatterns[j].name
  {}

  lemma IntentNamesKnown()
    ensures forall i :: 0 <= i < |IntentPatterns| ==> IntentPatterns[i].name != Unknown
  {}

  lemma KeywordCounts()
    ensures forall i :: 0 <= i < |IntentPatterns| ==> 0 < |IntentPatterns[i].keywords| <= 7
  {}

  lemma KeywordsNonEmpty()
    ensures forall i, k :: 0 <= i < |IntentPatterns| && 0 <= k < |IntentPatterns[i].keywords| ==>
              IntentPatterns[i].keywords[k] != ""
  {}

  lemma ParamNamesDistinctPerIntent()
    ensures forall i :: 0 <= i < |IntentPatterns| ==> ParamNamesDistinct(IntentPatterns[i].params)
  {}

  /** The inner loop of `extract_intent`: count the keywords found in `textLower`. */
  method CountKeywords(keywords: seq<string>, textLower: string) returns (score: nat)
    ensures score == Score(keywords, textLower)
  {
    score := 0;
    for j := 0 to |keywords|
      invariant score == Score(keywords[..j], textLower)
    {
      assert keywords[..j + 1][..j] == keywords[..j];
      if Contains(textLower, keywords[j]) {
        score := score + 1;
      }
    }
    assert keywords[..|keywords|] == keywords;
  }

  /** The outer loop of `extract_intent`: fill the score list in table order. */
  method ScoreIntents(intentPatterns: seq<IntentRule>, textLower: string) returns (intentScores: seq<nat>)
    ensures intentScores == Scores(intentPatterns, textLower)
  {
    intentScores := [];
    for i := 0 to |intentPatterns|
      invariant |intentScores| == i
      invariant forall k :: 0 <= k < i ==> intentScores[k] == Score(intentPatterns[k].keywords, textLower)
    {
      var score := CountKeywords(intentPatterns[i].keywords, textLower);
      intentScores := intentScores + [score];
    }
  }

  /** `max(intent_scores, key=intent_scores.get)`: a later intent replaces the
      current best only with a strictly higher score. */
  method BestIntent(intentScores: seq<nat>) returns (best: nat)
    requires intentScores != []
    ensures best == ArgMax(intentScores)
  {
    best := 0;
    for i := 1 to |intentScores|
      invariant best == ArgMax(intentScores[..i])
    {
      assert intentScores[..i + 1][..i] == intentScores[..i];
      if intentScores[i] > intentScores[best] {
        best := i;
      }
    }
    assert intentScores[..|intentScores|] == intentScores;
  }

  /** The parameter loop of `extract_intent`: each matching pattern stores its
      trimmed first group. */
  method ExtractParameters(params: seq<ParamRule>, textLower: string, search: Matcher)
    returns (parameters: map<string, string>)
    ensures parameters == ParamsOf(params, textLower, search)
  {
    parameters := map[];
    for j := 0 to |params|
      invariant parameters == ParamsOf(params[..j], textLower, search)
    {
      assert params[..j + 1][..j] == params[..j];
      var m := search(params[j].pattern, textLower);
      if m.Some? {
        parameters := parameters[params[j].name := Strip(m.value)];
      }
    }
    assert params[..|params|] == params;
  }

  /** `IntentParser.extract_intent` over the parser's table `intentPatterns`. */
  method ExtractIntent(intentPatterns: seq<IntentRule>, text: string, search: Matcher)
    returns (result: IntentResult)
    requires intentPatterns != []
    ensures result == Classify(intentPatterns, text, search)
  {
    var textLower := Strip(Lower(text));
    var intentScores := ScoreIntents(intentPatterns, textLower);
    var best := BestIntent(intentScores);
    if intentScores[best] == 0 || intentPatterns[best].name == Unknown {
      result := IntentResult(Unknown, map[], 0, text);
    } else {
      var rule := intentPatterns[best];
      var parameters := ExtractParameters(rule.params, textLower, search);
      result := IntentResult(rule.name, parameters, Hundredths(intentScores[best], |rule.keywords|), text);
    }
  }

  // ---------------------------------------------------------------------------
  // Replies

  /** The fixed words of the reply templates. */
  const Apology: string := "I'm not sure how to help with that, " + "but I'm here to assist you."
  const BookingOpening: string := "Okay, I've booked your appointment"
  const WeatherOpening: string := "The weather"
  const WeatherClosing: string := " is looking good today."
  const ReminderOpening: string := "I'll remind you"
  const MusicOpening: string := "Playing"
  const DirectionsOpening: string := "Here are directions"
  const QuestionReply: string := "Let me help you with that question."

  /** The intents that have a reply template of their own. */
  const Templated: set<string> :=
    {"book_appointment", "get_weather", "set_reminder", "play_music", "get_directions", "general_question"}

  /** `params.get(key)` is truthy: present and not empty. */
  predicate Given(params: map<string, string>, key: string) {
    key in params && params[key] != ""
  }

  /** `lead + params.get(key, '') if params.get(key) else ''` */
  function Clause(lead: string, params: map<string, string>, key: string): string {
    if Given(params, key) then lead + params[key] else ""
  }

  predicate StartsWith(s: string, prefix: string) {
    |prefix| <= |s| && s[..|prefix|] == prefix
  }

  predicate EndsWith(s: string, suffix: string) {
    |suffix| <= |s| && s[|s| - |suffix|..] == suffix
  }

  /** `generate_response`: `intent` is `intent_result.get("intent")`, `params` is
      `intent_result.get("parameters", {})`. Every reply is a sentence ending in
      '.', and the apology is given exactly when the intent is missing or has no
      template of its own. */
  function GenerateResponse(intent: Option<string>, params: map<string, string>): (reply: string)
    ensures |reply| > 0 && reply[|reply| - 1] == '.'
    ensures reply == Apology <==> intent.None? || intent.value !in Templated
  {
    var name := if intent.Some? then intent.value else Unknown;
    ReplyLetters();
    if name == "book_appointment" then
      var r := BookingOpening + Clause(" for ", params, "date") + Clause(" at ", params, "time") + ".";
      assert r[1] != Apology[1];
      r
    else if name == "get_weather" then
      var r := WeatherOpening + Clause(" in ", params, "location") + WeatherClosing;
      assert r[0] != Apology[0];
      r
    else if name == "set_reminder" then
      var r := ReminderOpening + Clause(" to ", params, "task") + Clause(" ", params, "time") + ".";
      assert r[2] != Apology[2];
      r
    else if name == "play_music" then
      var r := MusicOpening + (if Given(params, "song") then " " + params["song"] else " music")
               + Clause(" by ", params, "artist") + ".";
      assert r[0] != Apology[0];
      r
    else if name == "get_directions" then
      var r := DirectionsOpening + Clause(" to ", params, "destination") + ".";
      assert r[0] != Apology[0];
      r
    else if name == "general_question" then
      QuestionReply
    else
      Apology
  }

  /** The letters that tell the replies apart from the apology. */
  lemma ReplyLetters()
    ensures Apology[0] == 'I'
    ensures Apology[1] == '\''
    ensures Apology[2] == 'm'
    ensures BookingOpening[1] == 'k'
    ensures WeatherOpening[0] == 'T'
    ensures ReminderOpening[2] == 'l'
    ensures MusicOpening[0] == 'P'
    ensures DirectionsOpening[0] == 'H'
  {
  }

  lemma Affixes(a: string, b: string)
    ensures StartsWith(a + b, a) && EndsWith(a + b, b)
  {
    assert (a + b)[..|a|] == a;
    assert (a + b)[|a|..] == b;
  }

  /** A reply made of an opening, two optional clauses and a full stop, in each
      of the four ways the clauses can be present. */
  lemma TwoClauses(opening: string, first: string, second: string, x: string, y: string)
    ensures (opening + (first + x)) + ((second + y) + ".") == opening + first + x + second + y + "."
    ensures (opening + (first + x)) + ("" + ".") == opening + first + x + "."
    ensures (opening + "") + ((second + y) + ".") == opening + second + y + "."
    ensures (opening + "") + ("" + ".") == opening + "."
  {
    var head := opening + (first + x);
    AppendAssoc(opening, first, x);
    AppendAssoc(head, second + y, ".");
    AppendAssoc(head, second, y);
    AppendAssoc(opening, second + y, ".");
    AppendAssoc(opening, second, y);
    assert opening + "" == opening;
    assert "" + "." == ".";
  }

  /** A reply made of an opening, one optional clause and a full stop. */
  lemma OneClause(opening: string, lead: string, y: string)
    ensures opening + ((lead + y) + ".") == opening + lead + y + "."
    ensures opening + ("" + ".") == opening + "."
  {
    AppendAssoc(opening, lead + y, ".");
    AppendAssoc(opening, lead, y);
    assert "" + "." == ".";
  }

  /** `book_appointment`: the date clause follows the opening words, the time
      clause closes the sentence, and each is left out when its parameter is
      absent or empty. */
  lemma BookingReply(params: map<string, string>)
    ensures var r := GenerateResponse(Some("book_appointment"), params);
            && (!Given(params, "date") && !Given(params, "time") ==> r == BookingOpening + ".")
            && (Given(params, "date") && !Given(params, "time") ==>
                  r == BookingOpening + " for " + params["date"] + ".")
            && (!Given(params, "date") && Given(params, "time") ==>
                  r == BookingOpening + " at " + params["time"] + ".")
            && (Given(params, "date") && Given(params, "time") ==>
                  r == BookingOpening + " for " + params["date"] + " at " + params["time"] + ".")
            && (Given(params, "date") ==> StartsWith(r, BookingOpening + " for " + params["date"]))
            && (Given(params, "time") ==> EndsWith(r, " at " + params["time"] + "."))
  {
    var r := GenerateResponse(Some("book_appointment"), params);
    var date := Clause(" for ", params, "date");
    var time := Clause(" at ", params, "time");
    assert r == (BookingOpening + date) + (time + ".");
    var d := if Given(params, "date") then params["date"] else "";
    var t := if Given(params, "time") then params["time"] else "";
    TwoClauses(BookingOpening, " for ", " at ", d, t);
    Affixes(BookingOpening + date, time + ".");
    if Given(params, "time") {
      Affixes(BookingOpening + date + " at ", params["time"] + ".");
      assert time + "." == " at " + params["time"] + ".";
    }
  }

  /** `get_weather`: only the location is shown; the captured time never is. */
  lemma WeatherReply(params: map<string, string>)
    ensures var r := GenerateResponse(Some("get_weather"), params);
            && (!Given(params, "location") ==> r == WeatherOpening + WeatherClosing)
            && (Given(params, "location") ==>
                  r == WeatherOpening + " in " + params["location"] + WeatherClosing)
  {
  }

  /** `set_reminder`: the task follows "to", the time closes the sentence. */
  lemma ReminderReply(params: map<string, string>)
    ensures var r := GenerateResponse(Some("set_reminder"), params);
            && (!Given(params, "task") && !Given(params, "time") ==> r == ReminderOpening + ".")
            && (Given(params, "task") && !Given(params, "time") ==>
                  r == ReminderOpening + " to " + params["task"] + ".")
            && (!Given(params, "task") && Given(params, "time") ==>
                  r == ReminderOpening + " " + params["time"] + ".")
            && (Given(params, "task") && Given(params, "time") ==>
                  r == ReminderOpening + " to " + params["task"] + " " + params["time"] + ".")
            && (Given(params, "task") ==> StartsWith(r, ReminderOpening + " to " + params["task"]))
            && (Given(params, "time") ==> EndsWith(r, " " + params["time"] + "."))
  {
    var r := GenerateResponse(Some("set_reminder"), params);
    var task := Clause(" to ", params, "task");
    var time := Clause(" ", params, "time");
    assert r == (ReminderOpening + task) + (time + ".");
    var k := if Given(params, "task") then params["task"] else "";
    var t := if Given(params, "time") then params["time"] else "";
    TwoClauses(ReminderOpening, " to ", " ", k, t);
    Affixes(ReminderOpening + task, time + ".");
    if Given(params, "time") {
      assert time + "." == " " + params["time"] + ".";
    }
  }

  /** `play_music`: without a song the reply says "Playing music"; the artist
      clause closes the sentence. */
  lemma MusicReply(params: map<string, string>)
    ensures var r := GenerateResponse(Some("play_music"), params);
            && (!Given(params, "song") && !Given(params, "artist") ==> r == MusicOpening + " music" + ".")
            && (Given(params, "song") && !Given(params, "artist") ==>
                  r == MusicOpening + " " + params["song"] + ".")
            && (!Given(params, "song") && Given(params, "artist") ==>
                  r == MusicOpening + " music" + " by " + params["artist"] + ".")
            && (Given(params, "song") && Given(params, "artist") ==>
                  r == MusicOpening + " " + params["song"] + " by " + params["artist"] + ".")
            && (!Given(params, "song") ==> StartsWith(r, MusicOpening + " music"))
            && (Given(params, "song") ==> StartsWith(r, MusicOpening + " " + params["song"]))
            && (Given(params, "artist") ==> EndsWith(r, " by " + params["artist"] + "."))
  {
    var r := GenerateResponse(Some("play_music"), params);
    var song := if Given(params, "song") then " " + params["song"] else " music";
    var artist := Clause(" by ", params, "artist");
    assert r == (MusicOpening + song) + (artist + ".");
    var a := if Given(params, "artist") then params["artist"] else "";
    if Given(params, "song") {
      TwoClauses(MusicOpening, " ", " by ", params["song"], a);
    } else {
      OneClause(MusicOpening + " music", " by ", a);
    }
    Affixes(MusicOpening + song, artist + ".");
    if Given(params, "artist") {
      assert artist + "." == " by " + params["artist"] + ".";
    }
  }

  /** `get_directions`: only the destination is shown; the captured origin never is. */
  lemma DirectionsReply(params: map<string, string>)
    ensures var r := GenerateResponse(Some("get_directions"), params);
            && (!Given(params, "destination") ==> r == DirectionsOpening + ".")
            && (Given(params, "destination") ==>
                  r == DirectionsOpening + " to " + params["destination"] + ".")
  {
  }

  /** The parameters a reply template shows. */
  function TemplateKeys(intent: string): (keys: set<string>)
    ensures intent !in Templated ==> keys == {}
  {
    if intent == "book_appointment" then {"date", "time"}
    else if intent == "get_weather" then {"location"}
    else if intent == "set_reminder" then {"task", "time"}
    else if intent == "play_music" then {"song", "artist"}
    else if intent == "get_directions" then {"destination"}
    else {}
  }

  /** Two parameter maps that agree on what a template shows give the same reply. */
  lemma ReplyReadsOnlyTemplateKeys(intent: Option<string>, p: map<string, string>, q: map<string, string>)
    requires var name := if intent.Some? then intent.value else Unknown;
             forall k :: k in TemplateKeys(name) ==>
               Given(p, k) == Given(q, k) && (Given(p, k) ==> p[k] == q[k])
    ensures GenerateResponse(intent, p) == GenerateResponse(intent, q)
  {
    var name := if intent.Some? then intent.value else Unknown;
    var keys := TemplateKeys(name);
    if name == "book_appointment" {
      assert "date" in keys && "time" in keys;
      assert Clause(" for ", p, "date") == Clause(" for ", q, "date");
      assert Clause(" at ", p, "time") == Clause(" at ", q, "time");
    } else if name == "get_weather" {
      assert "location" in keys;
      assert Clause(" in ", p, "location") == Clause(" in ", q, "location");
    } else if name == "set_reminder" {
      assert "task" in keys && "time" in keys;
      assert Clause(" to ", p, "task") == Clause(" to ", q, "task");
      assert Clause(" ", p, "time") == Clause(" ", q, "time");
    } else if name == "play_music" {
      assert "song" in keys && "artist" in keys;
      assert Clause(" by ", p, "artist") == Clause(" by ", q, "artist");
    } else if name == "get_directions" {
      assert "destination" in keys;
      assert Clause(" to ", p, "destination") == Clause(" to ", q, "destination");
    }
  }

  /** Input with no keyword of any intent gets the apology. */
  lemma NoKeywordGetsApology(text: string, search: Matcher)
    requires forall i, k :: 0 <= i < |IntentPatterns| && 0 <= k < |IntentPatterns[i].keywords| ==>
               !Contains(Normalise(text), IntentPatterns[i].keywords[k])
    ensures var r := Classify(IntentPatterns, text, search);
            GenerateResponse(Some(r.intent), r.parameters) == Apology
  {
    IntentPatternsWellFormed();
    assert IntentPatterns != [];
    NoHitGetsApology(IntentPatterns, text, search);
  }

  lemma NoHitGetsApology(rules: seq<IntentRule>, text: string, search: Matcher)
    requires rules != [] && WellFormed(rules)
    requires forall i, k :: 0 <= i < |rules| && 0 <= k < |rules[i].keywords| ==>
               !Contains(Normalise(text), rules[i].keywords[k])
    ensures var r := Classify(rules, text, search);
            GenerateResponse(Some(r.intent), r.parameters) == Apology
  {
    var r := Classify(rules, text, search);
    ClassifyUnknown(rules, text, search);
    assert r.intent == Unknown;
  }
}
