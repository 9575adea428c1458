# receptro-ai text understanding, in Dafny

This project models the rule-based text-understanding core of receptro-ai, which has two halves.

**Intent parser (`IntentParser`).**
- It lower-cases and trims an utterance.
- It scores each of six intents by counting how many of its keywords occur in the text.
- The winner is the first intent, in table order, with the highest positive score. If no keyword occurs, the intent is `"unknown"`.
- For the winner, every parameter pattern is searched and its first group is kept, trimmed.
- The confidence is the winner's score over its keyword count, rounded to two decimals.
- `generate_response` fills a reply template. It leaves out each clause whose parameter is missing or empty, and falls back to an apology for any intent without a template.

**Document extractor (`DocumentExtractor`).**
- It flattens OCR text to one lower-cased line.
- For each of eight fields, it tries the field's patterns in order, and the first one that matches gives the field's value.
- That value is trimmed and its whitespace runs are collapsed. Names are also title-cased.
- Every value is then cleaned:
  - OCR noise characters `| @ # $ % ^ & *` are removed. This applies to every field, including email, so an email address loses its `@`.
  - Dates become `MM/DD/YYYY`, and a two-digit year pivots at 50.
  - Ten-digit phone numbers become `(ddd) ddd-dddd`.
  - The words of a name are capitalized.
  - Values of two characters or fewer are dropped.

Modules:
- `Wrappers` holds `Option`.
- `Regex` holds the abstract `Matcher`. A regular-expression search is a parameter: a function from a pattern and a text to the first capture group of the leftmost match, if there is one.
- `Text` models the Python `str` methods the core uses: `lower`, `strip`, `split`, `' '.join`, `capitalize`, `title`, `re.sub(r'\s+', ' ', …)` and `split('\n')`.
- `Interpret` holds the intent table, scoring, selection, parameters, confidence and replies.
- `Normalise` holds the value clean-up. The date-triple search, the digit filter and the noise-character filter are written out as code, not left to the abstract matcher.
- `Extract` holds the field table, the pattern cascade and the extractor's two loops.

Each Python method that loops is a Dafny `method` with the same loops. Each one is proved equal to a specification function:
- `ExtractIntent` equals `Classify`.
- `ExtractRawFields` equals `RawFields`.
- `CleanExtractedFields` equals `CleanFields`.
- `ExtractStructuredFields` equals `ExtractFields`.

The properties are proved about those functions. The two parser objects never change their fields after construction. So their tables are module constants, and the methods take the table as an argument.

## Model

| member | source | states |
|---|---|---|
| Text.Lower | receptro-ai/interpret/interpret.py:72 | `lower()` maps every character through the ASCII case map and leaves no upper-case letter |
| Text.Strip | receptro-ai/interpret/interpret.py:72 | `strip()` leaves no whitespace at either end; it is empty exactly when the input is all whitespace, and an already trimmed string is returned unchanged |
| Text.TrimStartDropsSpace | receptro-ai/interpret/interpret.py:72 | the leading part `strip()` removes is all whitespace |
| Text.TrimEndDropsSpace | receptro-ai/interpret/interpret.py:72 | the trailing part `strip()` removes is all whitespace |
| Text.Words | receptro-ai/extract/extract.py:190 | `split()` yields only non-empty, whitespace-free words |
| Text.WordsKeepText | receptro-ai/extract/extract.py:190 | the words of `split()`, joined, hold exactly the non-whitespace characters of the input, in order |
| Text.WordsOfJoin | receptro-ai/extract/extract.py:190 | joining words with single spaces gives a trimmed string whose `split()` gives back exactly those words |
| Text.WordsOfCapitalizeWords | receptro-ai/extract/extract.py:190 | the capitalized name is trimmed, and its words are the capitalized words of the input |
| Text.CapitalizeWordsIdempotent | receptro-ai/extract/extract.py:190 | capitalizing the words of a name a second time changes nothing |
| Text.TitleAt | receptro-ai/extract/extract.py:153 | `title()` upper-cases a letter that starts the string or follows an uncased character, lower-cases a letter that follows a cased one, and keeps everything else |
| Text.TitleKeepsSpacing | receptro-ai/extract/extract.py:153 | `title()` keeps a trimmed, single-spaced value trimmed and single-spaced |
| Text.CollapseSpacesMeaning | receptro-ai/extract/extract.py:152 | after `re.sub(r'\s+', ' ', v)`, every whitespace character is a single space not followed by another whitespace character, and the non-whitespace text is unchanged |
| Text.CollapseIsJoinOfWords | receptro-ai/extract/extract.py:150-152 | collapsing the whitespace runs of a trimmed capture gives `' '.join(capture.split())`: each maximal whitespace run between words becomes one space |
| Text.JoinSplitLines | receptro-ai/extract/extract.py:142-143 | `' '.join(text.split('\n'))` replaces each newline by one space and changes nothing else |
| Interpret.IntentPatternsWellFormed | receptro-ai/interpret/interpret.py:17-60 | the six intents have distinct names, none named "unknown"; each has 1 to 7 non-empty keywords and distinct parameter names |
| Interpret.Score | receptro-ai/interpret/interpret.py:77-80 | a score never exceeds the intent's keyword count |
| Interpret.ScoreCounts | receptro-ai/interpret/interpret.py:76-81 | the score is the number of keywords that occur as a substring of the normalised text |
| Interpret.ScoreExtremes | receptro-ai/interpret/interpret.py:77-81 | the score is 0 exactly when no keyword occurs, and full exactly when every keyword occurs |
| Interpret.CountKeywords | receptro-ai/interpret/interpret.py:77-80 | the keyword-counting loop computes the score |
| Interpret.ScoreIntents | receptro-ai/interpret/interpret.py:75-81 | the scoring loop builds the score of every intent, in table order |
| Interpret.ArgMax | receptro-ai/interpret/interpret.py:84 | `max(d, key=d.get)` picks an index with the largest score, and every earlier index has a strictly smaller score |
| Interpret.FirstMaxUnique | receptro-ai/interpret/interpret.py:84 | there is only one first maximum, so the tie-break is determined |
| Interpret.BestIntent | receptro-ai/interpret/interpret.py:84 | the selection step returns that first maximum |
| Interpret.ParamsOf | receptro-ai/interpret/interpret.py:88-93 | every parameter key is the name of a pattern that matched and holds its trimmed capture; every pattern that matched contributes its key |
| Interpret.ParamsExact | receptro-ai/interpret/interpret.py:90-93 | when names are distinct, a parameter is present exactly when its pattern matched, and then holds the trimmed capture |
| Interpret.ExtractParameters | receptro-ai/interpret/interpret.py:87-93 | the parameter loop builds exactly those parameters |
| Interpret.Hundredths | receptro-ai/interpret/interpret.py:101 | the confidence in hundredths is `num/den` rounded to the nearest hundredth |
| Interpret.NoRoundingTie | receptro-ai/interpret/interpret.py:101 | with at most 7 keywords no ratio falls exactly halfway, so half-up and Python's half-even rounding agree |
| Interpret.HundredthsBounds | receptro-ai/interpret/interpret.py:96 | a positive score gives a confidence in (0.00, 1.00] |
| Interpret.Classify | receptro-ai/interpret/interpret.py:102 | `original_text` is the caller's text, neither lower-cased nor trimmed |
| Interpret.ClassifyUnknown | receptro-ai/interpret/interpret.py:84-96 | the intent is "unknown" exactly when no keyword of any intent occurs in the normalised text; then there are no parameters and confidence is 0 |
| Interpret.ClassifyBlank | receptro-ai/interpret/interpret.py:72-84 | empty or whitespace-only input gives intent "unknown", no parameters and confidence 0 |
| Interpret.ClassifyWinner | receptro-ai/interpret/interpret.py:84 | intent `w` is chosen exactly when its score is positive and it is the first intent with the highest score |
| Interpret.ClassifyConfidence | receptro-ai/interpret/interpret.py:96-101 | the winner's confidence is its score over its keyword count, rounded to hundredths, and lies in (0, 1] |
| Interpret.ClassifyParameters | receptro-ai/interpret/interpret.py:88-93 | the parameters are keyed by the winner's own parameter names only; each is present exactly when its pattern matched, and holds the trimmed capture |
| Interpret.ExtractIntent | receptro-ai/interpret/interpret.py:62-103 | `extract_intent`'s loops compute exactly the classification `Classify` specifies |
| Interpret.GenerateResponse | receptro-ai/interpret/interpret.py:157-170 | every reply is non-empty and ends in '.'; the apology is given exactly when the intent is missing or has no template |
| Interpret.BookingReply | receptro-ai/interpret/interpret.py:161 | the reply is exactly the opening words, " for <date>" when a date is given, " at <time>" when a time is given, and '.', in each of the four combinations |
| Interpret.WeatherReply | receptro-ai/interpret/interpret.py:162 | the weather reply shows the location when it is given and never shows the time |
| Interpret.ReminderReply | receptro-ai/interpret/interpret.py:163 | the reply is exactly "I'll remind you", " to <task>" when a task is given, " <time>" when a time is given, and '.', in each of the four combinations |
| Interpret.MusicReply | receptro-ai/interpret/interpret.py:164 | the reply is exactly "Playing", " <song>" or " music" without one, " by <artist>" when an artist is given, and '.', in each of the four combinations |
| Interpret.DirectionsReply | receptro-ai/interpret/interpret.py:165 | the directions reply shows the destination when it is given and never shows the origin |
| Interpret.ReplyReadsOnlyTemplateKeys | receptro-ai/interpret/interpret.py:160-170 | two parameter maps that agree on the keys a template shows give the same reply |
| Interpret.NoKeywordGetsApology | receptro-ai/interpret/interpret.py:167-170 | input with no keyword of any intent gets the apology |
| Normalise.StripNoise | receptro-ai/extract/extract.py:169 | the result has no noise character, is no longer than the input, and noise-free input is unchanged |
| Normalise.StripNoiseChar | receptro-ai/extract/extract.py:169 | a single character is dropped exactly when it is one of `\| @ # $ % ^ & *` |
| Normalise.StripNoiseAppend | receptro-ai/extract/extract.py:169 | the noise filter works piecewise over a concatenation, so every other character is kept, in order |
| Normalise.Digits | receptro-ai/extract/extract.py:184 | `re.sub(r'[^\d]', '', v)` keeps only digits |
| Normalise.DigitsAppend | receptro-ai/extract/extract.py:184 | the digit filter works piecewise over a concatenation |
| Normalise.DigitsChar | receptro-ai/extract/extract.py:184 | a single character is kept exactly when it is a digit, so with `DigitsAppend` every digit is kept, in order |
| Normalise.FormatPhoneShape | receptro-ai/extract/extract.py:184-186 | a formatted number reads "(ddd) ddd-dddd", and filtering its digits gives back the ten digits it was made from |
| Normalise.NormalisePhoneIdempotent | receptro-ai/extract/extract.py:182-186 | normalising a phone value a second time changes nothing |
| Normalise.DigitRun | receptro-ai/extract/extract.py:175 | the run of digits at an index is maximal: all its characters are digits and the next one is not |
| Normalise.MatchSpans | receptro-ai/extract/extract.py:175 | the group lengths found fit the pattern at the index: 1-2 digits, a '-' or '/', 1-2 digits, a '-' or '/', 2-4 digits, the year cut at four digits or where the digits end |
| Normalise.DateAt | receptro-ai/extract/extract.py:175 | a date-pattern match has a 1-2 digit month, a 1-2 digit day and a 2-4 digit year, and these groups are the text at the index, between two separators |
| Normalise.DateAtComplete | receptro-ai/extract/extract.py:175 | one or two digits, a separator, one or two digits, a separator and two digits at an index always match there, with those month and day groups |
| Normalise.FindDate | receptro-ai/extract/extract.py:175-176 | a date found by `re.search` has a 1-2 digit month, a 1-2 digit day and a 2-4 digit year |
| Normalise.FindDateLeftmost | receptro-ai/extract/extract.py:175-176 | `re.search` finds no triple exactly when no index matches, and otherwise returns the match at the leftmost index that matches |
| Normalise.FindDateInText | receptro-ai/extract/extract.py:175-176 | the triple `re.search` finds is spelled out in the value at some index |
| Normalise.ZFill | receptro-ai/extract/extract.py:180 | `zfill(2)` pads to width 2 and keeps the numeric value |
| Normalise.ExpandYearValue | receptro-ai/extract/extract.py:178-179 | a two-digit year below 50 becomes 2000 plus the year and otherwise 1900 plus the year; three- and four-digit years are kept |
| Normalise.DateStringFormat | receptro-ai/extract/extract.py:177-180 | a normalised date is two digits, '/', two digits, '/', and a 3- or 4-digit year (always 4 digits for a two-digit input year); month and day keep their values |
| Normalise.DateStringFixed | receptro-ai/extract/extract.py:175-180 | a normalised date is matched whole at its start and normalises to itself |
| Normalise.NormaliseDateIdempotent | receptro-ai/extract/extract.py:173-180 | normalising a date value a second time changes nothing |
| Normalise.DateExampleNineties | receptro-ai/extract/extract.py:178-180 | "5-21-90" becomes "05/21/1990" |
| Normalise.DateExampleNoughties | receptro-ai/extract/extract.py:178-180 | "5-21-08" becomes "05/21/2008" |
| Normalise.CleanValue | receptro-ai/extract/extract.py:166-193 | a kept value is longer than two characters, free of noise characters and trimmed |
| Normalise.CanonicalFormClean | receptro-ai/extract/extract.py:172-190 | date, phone and name rewriting keep a trimmed, noise-free value trimmed and noise-free |
| Normalise.CapitalizeWordsNoiseFree | receptro-ai/extract/extract.py:188-190 | capitalizing the words of a noise-free name adds no noise character |
| Normalise.CleanValueIdempotent | receptro-ai/extract/extract.py:166-193 | cleaning a kept value again returns it unchanged |
| Normalise.CanonicalFormFixed | receptro-ai/extract/extract.py:172-190 | every field-specific rewrite leaves its own output unchanged |
| Extract.FieldPatternsWellFormed | receptro-ai/extract/extract.py:19-58 | the table names exactly the eight fields, each once, and gives every field at least two patterns |
| Extract.FullTextAt | receptro-ai/extract/extract.py:142-143 | the searched text has one character per input character: newlines become spaces and everything else is lower-cased |
| Extract.FirstCapture | receptro-ai/extract/extract.py:147-155 | a field has no capture exactly when none of its patterns match; otherwise the capture comes from a matching pattern with no matching pattern before it |
| Extract.FirstCaptureAt | receptro-ai/extract/extract.py:147-155 | the first matching pattern decides the capture, whatever later patterns would match |
| Extract.RawValueShape | receptro-ai/extract/extract.py:150-153 | a stored capture is trimmed and single-spaced, the name's title-casing included |
| Extract.RawFieldsKeys | receptro-ai/extract/extract.py:146-155 | a field is stored only if one of its patterns matched, and every field with a matching pattern is stored |
| Extract.RawFieldsExact | receptro-ai/extract/extract.py:146-155 | with distinct names, a field holds the stored capture of its first matching pattern |
| Extract.CleanFields | receptro-ai/extract/extract.py:162-195 | cleaning never adds a key; a key is kept exactly when its value survives cleaning, and then holds the cleaned value |
| Extract.CleanFieldsIdempotent | receptro-ai/extract/extract.py:162-195 | cleaning the cleaned fields again changes nothing |
| Extract.ExtractFieldsNames | receptro-ai/extract/extract.py:138-160 | empty text gives no fields, and every extracted key is a field of the table one of whose patterns matched |
| Extract.ExtractedKeysAreFieldNames | receptro-ai/extract/extract.py:138-160 | with the extractor's table, extracted keys are among the eight field names |
| Extract.ExtractFieldsValues | receptro-ai/extract/extract.py:164-195 | every extracted value is longer than two characters, noise-free, trimmed, and unchanged by cleaning again |
| Extract.ExtractFieldsExact | receptro-ai/extract/extract.py:141-160 | a field is extracted exactly when one of its patterns matches and the cleaned capture of the first one is kept; the value is that cleaned capture |
| Extract.FieldsIndependent | receptro-ai/extract/extract.py:146-155 | a field's presence and value depend only on its own patterns' matches |
| Extract.ExtractRawFields | receptro-ai/extract/extract.py:141-155 | the nested loop with `break` computes exactly the stored captures `RawFields` specifies |
| Extract.CleanEntry | receptro-ai/extract/extract.py:167-193 | the step-by-step clean-up of one entry keeps it exactly as `CleanValue` does, or drops it |
| Extract.CleanExtractedFields | receptro-ai/extract/extract.py:162-195 | the cleaning loop computes exactly `CleanFields`, whatever order the entries are visited in |
| Extract.ExtractStructuredFields | receptro-ai/extract/extract.py:128-160 | `extract_structured_fields` computes exactly `ExtractFields`; empty text gives no fields |

## Left out

- Regular-expression matching: `re.search` with its flags (`IGNORECASE`, `MULTILINE`), backtracking and group semantics is the abstract `Matcher`. No property depends on what a pattern string means. Four patterns are exceptions and are written out as code: `\s+` at receptro-ai/extract/extract.py:152, the noise class at receptro-ai/extract/extract.py:169, the date triple at receptro-ai/extract/extract.py:175 and the digit filter at receptro-ai/extract/extract.py:184.
- Text.Lower: Unicode case mapping is not modelled. Only ASCII letters change case in `lower`, `capitalize` and `title`. Whitespace is the full `str.isspace` set.
- Normalise.DigitRun: `\d` and `int()` accept only ASCII digits here. Python also accepts other Unicode decimal digits.
- Interpret.Hundredths: the confidence is an integer number of hundredths, not a float. The rounding agrees with `round(x, 2)` because no tie can occur (`NoRoundingTie`). Float representation error is not modelled.
- Interpret.Classify: it requires a non-empty table. Python's `max` would raise on an empty one, and the parser's own table has six entries.
- Interpret.GenerateResponse: the result dict is taken as an optional intent and a parameter map of strings. A missing `"parameters"` entry is the empty map. Non-string values are not modelled.
- Interpret.ClassifyWinner, Interpret.ClassifyParameters and Extract.RawFieldsExact need distinct names. A Python dict literal guarantees them, and the constant tables are proved to have them. The code itself never checks its tables for duplicate names or missing capture groups.
- The code does not clamp the confidence; `HundredthsBounds` shows it already lies in (0, 1].
- The code never validates its tables, so no validation is modelled.
- `process_transcript`, `process_document`, `preprocess_image`, `extract_text_from_image` and the `main` entry points are left out. They are file I/O, image processing, OCR and printing.
- Transcription, speech synthesis, the web server, the orchestrator and the demo and packaging scripts are not part of this model.
- Dict iteration order: the field table is a sequence walked in order. The cleaning loop picks entries in an unspecified order, and its result is proved not to depend on that order.
- Key order of the result dicts: `parameters` and the cleaned fields are Dafny maps, which have no order. In Python they keep insertion order (parameter declaration order, field-table order), which shows in the JSON written at receptro-ai/interpret/interpret.py:134 and receptro-ai/extract/extract.py:232.
