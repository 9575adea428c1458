/** Structured field extraction from OCR text: every field of the table takes
    the capture of the first of its patterns that matches the flattened,
    lower-cased text; the captured values are then cleaned one by one. */
module Extract {
  import opened Wrappers
  import opened Text
  import opened Regex
  import opened Normalise

  // ---------------------------------------------------------------------------
  // The field table

  /** A document field and the patterns tried for it, in order. */
  datatype FieldRule = FieldRule(name: string, patterns: seq<string>)

  /** The extractor's table of field patterns. */
  const FieldPatterns: seq<FieldRule> := [
    FieldRule("name", [
      "name[:\\s]+([a-zA-Z\\s,]+)",
      "full\\s+name[:\\s]+([a-zA-Z\\s,]+)",
      "^([A-Z][a-zA-Z]+\\s+[A-Z][a-zA-Z]+)"]),
    FieldRule("date_of_birth", [
      "(?:date\\s+of\\s+birth|dob|birth\\s+date)[:\\s]+(\\d{1,2}[-/]\\d{1,2}[-/]\\d{2,4})",
      "born[:\\s]+(\\d{1,2}[-/]\\d{1,2}[-/]\\d{2,4})",
      "(\\d{1,2}[-/]\\d{1,2}[-/]\\d{4})"]),
    FieldRule("id_number", [
      "(?:id|license|card)\\s*(?:number|no|#)[:\\s]*([A-Z0-9-]+)",
      "(?:number|no|#)[:\\s]*([A-Z0-9-]+)",
      "([A-Z]{1,3}\\d{6,12})"]),
    FieldRule("address", [
      "address[:\\s]+([^\\n]+)",
      "(?:street|addr)[:\\s]+([^\\n]+)",
      "(\\d+\\s+[A-Za-z\\s]+(?:street|st|avenue|ave|road|rd|lane|ln|drive|dr))"]),
    FieldRule("phone", [
      "(?:phone|tel|mobile)[:\\s]*([0-9\\-\\(\\)\\s]+)",
      "(\\(\\d{3}\\)\\s*\\d{3}-\\d{4})",
      "(\\d{3}-\\d{3}-\\d{4})"]),
    FieldRule("email", [
      "(?:email|e-mail)[:\\s]*([a-zA-Z0-9._%+-]+@[a-zA-Z0-9.-]+\\.[a-zA-Z]{2,})",
      "([a-zA-Z0-9._%+-]+@[a-zA-Z0-9.-]+\\.[a-zA-Z]{2,})"]),
    FieldRule("expiry_date", [
      "(?:expires?|exp|expiry)[:\\s]*(\\d{1,2}[-/]\\d{1,2}[-/]\\d{2,4})",
      "valid\\s+until[:\\s]*(\\d{1,2}[-/]\\d{1,2}[-/]\\d{2,4})"]),
    FieldRule("issuer", [
      "issued\\s+by[:\\s]*([A-Za-z\\s]+)",
      "(?:state|country|authority)[:\\s]*([A-Za-z\\s]+)"])
  ]

  /** The eight field names. */
  const FieldNames: set<string> :=
    {"name", "date_of_birth", "id_number", "address", "phone", "email", "expiry_date", "issuer"}

  /** Field names are the keys of a dictionary, so they are distinct. */
  ghost predicate NamesDistinct(rules: seq<FieldRule>) {
    forall i, j :: 0 <= i < j < |rules| ==> rules[i].name != rules[j].name
  }

  /** The table names exactly the eight fields, once each, and tries at least
      two patterns for every field. */
  lemma FieldPatternsWellFormed()
    ensures NamesDistinct(FieldPatterns)
    ensures forall i :: 0 <= i < |FieldPatterns| ==> FieldPatterns[i].name in FieldNames
    ensures forall k :: k in FieldNames ==> exists i :: 0 <= i < |FieldPatterns| && FieldPatterns[i].name == k
    ensures forall i :: 0 <= i < |FieldPatterns| ==> |FieldPatterns[i].patterns| >= 2
  {
    FieldNamesDistinct();
    FieldNamesListed();
    assert FieldPatterns[0].name == "name";
    assert FieldPatterns[1].name == "date_of_birth";
    assert FieldPatterns[2].name == "id_number";
    assert FieldPatterns[3].name == "address";
    assert FieldPatterns[4].name == "phone";
    assert FieldPatterns[5].name == "email";
    assert FieldPatterns[6].name == "expiry_date";
    assert FieldPatterns[7].name == "issuer";
  }

  lemma FieldNamesDistinct()
    ensures NamesDistinct(FieldPatterns)
  {}

  lemma FieldNamesListed()
    ensures forall i :: 0 <= i < |FieldPatterns| ==> FieldPatterns[i].name in FieldNames
  {}

  // ---------------------------------------------------------------------------
  // Preparing the text

  /** `' '.join(text.split('\n')).lower()` */
  function FullText(text: string): string {
    Lower(JoinWords(SplitLines(text)))
  }

  /** The searched text has one character per input character: a newline
      becomes a space and every other character is lower-cased. */
  lemma FullTextAt(text: string)
    ensures |FullText(text)| == |text|
    ensures forall i :: 0 <= i < |text| ==>
              FullText(text)[i] == if text[i] == '\n' then ' ' else LowerChar(text[i])
  {
    JoinSplitLines(text);
  }

  // ---------------------------------------------------------------------------
  // One field

  /** The capture of the first pattern that matches, if any. */
  function FirstCapture(patterns: seq<string>, t: string, search: Matcher): (c: Option<string>)
    ensures c.None? <==> forall i :: 0 <= i < |patterns| ==> search(patterns[i], t).None?
    ensures c.Some? ==> exists i :: 0 <= i < |patterns| && search(patterns[i], t) == c
                          && forall k :: 0 <= k < i ==> search(patterns[k], t).None?
  {
    if patterns == [] then None
    else if search(patterns[0], t).Some? then search(patterns[0], t)
    else FirstCapture(patterns[1..], t, search)
  }

  /** The first pattern that matches decides the capture, whatever the later
      patterns would match. */
  lemma FirstCaptureAt(patterns: seq<string>, t: string, search: Matcher, j: nat)
    requires j < |patterns| && search(patterns[j], t).Some?
    requires forall k :: 0 <= k < j ==> search(patterns[k], t).None?
    ensures FirstCapture(patterns, t, search) == search(patterns[j], t)
  {
    var c := FirstCapture(patterns, t, search);
    var i :| 0 <= i < |patterns| && search(patterns[i], t) == c
             && forall k :: 0 <= k < i ==> search(patterns[k], t).None?;
    assert !(i < j) && !(j < i);
  }

  /** A capture as stored before cleaning: stripped, whitespace runs collapsed
      to one space, and title-cased for the name field. */
  function RawValue(field: string, capture: string): string {
    var v := CollapseSpaces(Strip(capture));
    if field == "name" then Title(v) else v
  }

  /** A stored capture neither starts nor ends with whitespace and is single
      spaced. */
  lemma RawValueShape(field: string, capture: string)
    ensures Stripped(RawValue(field, capture)) && SingleSpaced(RawValue(field, capture))
  {
    var v := CollapseSpaces(Strip(capture));
    CollapseSpacesMeaning(Strip(capture));
    if field == "name" {
      TitleKeepsSpacing(v);
    }
  }

  // ---------------------------------------------------------------------------
  // All fields

  /** The fields found before cleaning: the table is walked in order and a
      field whose patterns match gets the stored capture of the first one. */
  function RawFields(rules: seq<FieldRule>, t: string, search: Matcher): map<string, string> {
    if rules == [] then map[]
    else
      var m := RawFields(rules[..|rules| - 1], t, search);
      var r := rules[|rules| - 1];
      match FirstCapture(r.patterns, t, search)
      case None => m
      case Some(c) => m[r.name := RawValue(r.name, c)]
  }

  /** The last field of the table is stored over what the others gave. */
  lemma RawFieldsLast(rules: seq<FieldRule>, t: string, search: Matcher)
    requires rules != []
    ensures var n := |rules| - 1;
            var prev := RawFields(rules[..n], t, search);
            var c := FirstCapture(rules[n].patterns, t, search);
            RawFields(rules, t, search)
              == if c.Some? then prev[rules[n].name := RawValue(rules[n].name, c.value)] else prev
  {
  }

  /** A name the table does not have is never stored. */
  lemma {:induction false} RawFieldsAbsent(rules: seq<FieldRule>, t: string, search: Matcher, name: string)
    requires forall i :: 0 <= i < |rules| ==> rules[i].name != name
    ensures name !in RawFields(rules, t, search)
  {
    if rules != [] {
      var n := |rules| - 1;
      RawFieldsLast(rules, t, search);
      forall j | 0 <= j < n ensures rules[..n][j].name != name {
        assert rules[..n][j] == rules[j];
      }
      RawFieldsAbsent(rules[..n], t, search, name);
    }
  }

  /** A stored field is a field of the table one of whose patterns matched, and
      every field one of whose patterns matched is stored. */
  lemma {:induction false} RawFieldsKeys(rules: seq<FieldRule>, t: string, search: Matcher)
    ensures var m := RawFields(rules, t, search);
            && (forall k :: k in m ==>
                  exists i :: 0 <= i < |rules| && rules[i].name == k
                    && FirstCapture(rules[i].patterns, t, search).Some?)
            && (forall i :: 0 <= i < |rules| && FirstCapture(rules[i].patterns, t, search).Some? ==>
                  rules[i].name in m)
  {
    if rules != [] {
      var n := |rules| - 1;
      var init := rules[..n];
      RawFieldsKeys(init, t, search);
      var m := RawFields(rules, t, search);
      RawFieldsLast(rules, t, search);
      forall k | k in m
        ensures exists i :: 0 <= i < |rules| && rules[i].name == k
                  && FirstCapture(rules[i].patterns, t, search).Some?
      {
        if k != rules[n].name || FirstCapture(rules[n].patterns, t, search).None? {
          var i :| 0 <= i < n && init[i].name == k && FirstCapture(init[i].patterns, t, search).Some?;
          assert rules[i] == init[i];
        }
      }
      forall i | 0 <= i < |rules| && FirstCapture(rules[i].patterns, t, search).Some?
        ensures rules[i].name in m
      {
        if i < n {
          assert rules[i] == init[i];
        }
      }
    }
  }

  /** With distinct names, a field is present exactly when one of its patterns
      matches, and it holds the stored capture of the first that does. */
  lemma {:induction false} RawFieldsExact(rules: seq<FieldRule>, t: string, search: Matcher, i: nat)
    requires NamesDistinct(rules) && i < |rules|
    ensures var m := RawFields(rules, t, search);
            && (rules[i].name in m <==> FirstCapture(rules[i].patterns, t, search).Some?)
            && (rules[i].name in m ==>
                  m[rules[i].name] == RawValue(rules[i].name, FirstCapture(rules[i].patterns, t, search).value))
  {
    var n := |rules| - 1;
    var init := rules[..n];
    RawFieldsLast(rules, t, search);
    if i < n {
      assert NamesDistinct(init);
      RawFieldsExact(init, t, search, i);
      assert init[i] == rules[i];
      assert rules[n].name != rules[i].name;
    } else {
      forall j | 0 <= j < n ensures init[j].name != rules[n].name {
        assert init[j] == rules[j];
      }
      RawFieldsAbsent(init, t, search, rules[n].name);
    }
  }

  /** `_clean_extracted_fields`: every stored value is cleaned, and only the
      kept ones remain. */
  function CleanFields(m: map<string, string>): (r: map<string, string>)
    ensures r.Keys <= m.Keys
    ensures forall k :: k in m ==> (k in r <==> CleanValue(k, m[k]).Some?)
    ensures forall k :: k in r ==> r[k] == CleanValue(k, m[k]).value
  {
    KeepOn(m, m.Keys, CleanValue)
  }

  /** The entries for the keys in `keys` that `clean` keeps, as it leaves them. */
  function KeepOn(m: map<string, string>, keys: set<string>, clean: (string, string) -> Option<string>)
    : map<string, string>
  {
    map k | k in keys && k in m && clean(k, m[k]).Some? :: clean(k, m[k]).value
  }

  /** Cleaning the cleaned fields again changes nothing. */
  lemma CleanFieldsIdempotent(m: map<string, string>)
    ensures CleanFields(CleanFields(m)) == CleanFields(m)
  {
    var r := CleanFields(m);
    forall k | k in r ensures CleanValue(k, r[k]) == Some(r[k]) {
      CleanValueIdempotent(k, m[k]);
    }
    KeepOnFixed(r, CleanValue);
  }

  /** Keeping the entries of a map that are fixed points of `clean` keeps the map. */
  lemma KeepOnFixed(m: map<string, string>, clean: (string, string) -> Option<string>)
    requires forall k :: k in m ==> clean(k, m[k]) == Some(m[k])
    ensures KeepOn(m, m.Keys, clean) == m
  {
    var r := KeepOn(m, m.Keys, clean);
    assert r.Keys == m.Keys;
  }

  /** `extract_structured_fields` on the given table. */
  function ExtractFields(rules: seq<FieldRule>, text: string, search: Matcher): map<string, string> {
    if text == [] then map[] else CleanFields(RawFields(rules, FullText(text), search))
  }

  /** Empty text gives no fields, and every extracted field is a field of the
      table one of whose patterns matched. */
  lemma ExtractFieldsNames(rules: seq<FieldRule>, text: string, search: Matcher)
    ensures var f := ExtractFields(rules, text, search);
            && (text == [] ==> f == map[])
            && (forall k :: k in f ==>
                  (exists i :: 0 <= i < |rules| && rules[i].name == k
                     && FirstCapture(rules[i].patterns, FullText(text), search).Some?))
  {
    if text != [] {
      var raw := RawFields(rules, FullText(text), search);
      RawFieldsKeys(rules, FullText(text), search);
      assert ExtractFields(rules, text, search).Keys <= raw.Keys;
    }
  }

  /** With the extractor's own table, the extracted keys are among the eight
      field names. */
  lemma ExtractedKeysAreFieldNames(text: string, search: Matcher)
    ensures ExtractFields(FieldPatterns, text, search).Keys <= FieldNames
  {
    ExtractFieldsNames(FieldPatterns, text, search);
    FieldPatternsWellFormed();
  }

  /** Every extracted value is longer than two characters, free of OCR noise
      and not padded with whitespace, and cleaning it again keeps it as it is. */
  lemma ExtractFieldsValues(rules: seq<FieldRule>, text: string, search: Matcher)
    ensures var f := ExtractFields(rules, text, search);
            forall k :: k in f ==> |f[k]| > 2 && NoiseFree(f[k]) && Stripped(f[k])
                                   && CleanValue(k, f[k]) == Some(f[k])
  {
    if text != [] {
      var raw := RawFields(rules, FullText(text), search);
      var f := CleanFields(raw);
      forall k | k in f ensures CleanValue(k, f[k]) == Some(f[k]) {
        CleanValueIdempotent(k, raw[k]);
      }
    }
  }

  /** With distinct names, field `i` is extracted exactly when one of its
      patterns matches the searched text and the cleaned capture of the first
      one that does is kept; its value is that cleaned capture. */
  lemma ExtractFieldsExact(rules: seq<FieldRule>, text: string, search: Matcher, i: nat)
    requires NamesDistinct(rules) && i < |rules| && text != []
    ensures var f := ExtractFields(rules, text, search);
            var name := rules[i].name;
            var c := FirstCapture(rules[i].patterns, FullText(text), search);
            && (name in f <==> c.Some? && CleanValue(name, RawValue(name, c.value)).Some?)
            && (name in f ==> f[name] == CleanValue(name, RawValue(name, c.value)).value)
  {
    RawFieldsExact(rules, FullText(text), search, i);
  }

  /** A field depends on its own patterns only: two searches that agree on them
      give the field the same presence and value. */
  lemma FieldsIndependent(rules: seq<FieldRule>, text: string, s1: Matcher, s2: Matcher, i: nat)
    requires NamesDistinct(rules) && i < |rules| && text != []
    requires forall k :: 0 <= k < |rules[i].patterns| ==>
               s1(rules[i].patterns[k], FullText(text)) == s2(rules[i].patterns[k], FullText(text))
    ensures var name := rules[i].name;
            var f1, f2 := ExtractFields(rules, text, s1), ExtractFields(rules, text, s2);
            (name in f1 <==> name in f2) && (name in f1 ==> f1[name] == f2[name])
  {
    ExtractFieldsExact(rules, text, s1, i);
    ExtractFieldsExact(rules, text, s2, i);
    SameCapture(rules[i].patterns, FullText(text), s1, s2);
  }

  /** Two searches that agree on every pattern pick the same first capture. */
  lemma {:induction false} SameCapture(patterns: seq<string>, t: string, s1: Matcher, s2: Matcher)
    requires forall k :: 0 <= k < |patterns| ==> s1(patterns[k], t) == s2(patterns[k], t)
    ensures FirstCapture(patterns, t, s1) == FirstCapture(patterns, t, s2)
  {
    if patterns != [] {
      SameCapture(patterns[1..], t, s1, s2);
    }
  }

  // ---------------------------------------------------------------------------
  // The extractor's loops

  /** The loop over the table: for each field, the patterns are tried in order
      and the first match is stored. */
  method ExtractRawFields(fieldPatterns: seq<FieldRule>, fullText: string, search: Matcher)
    returns (extractedFields: map<string, string>)
    ensures extractedFields == RawFields(fieldPatterns, fullText, search)
  {
    extractedFields := map[];
    for f := 0 to |fieldPatterns|
      invariant extractedFields == RawFields(fieldPatterns[..f], fullText, search)
    {
      var rule := fieldPatterns[f];
      assert fieldPatterns[..f + 1][..f] == fieldPatterns[..f];
      var j := 0;
      while j < |rule.patterns|
        invariant 0 <= j <= |rule.patterns|
        invariant forall k :: 0 <= k < j ==> search(rule.patterns[k], fullText).None?
        invariant extractedFields == RawFields(fieldPatterns[..f], fullText, search)
      {
        var found := search(rule.patterns[j], fullText);
        if found.Some? {
          var value := Strip(found.value);
          value := CollapseSpaces(value);
          value := if rule.name == "name" then Title(value) else value;
          FirstCaptureAt(rule.patterns, fullText, search, j);
          extractedFields := extractedFields[rule.name := value];
          break;
        }
        j := j + 1;
      }
    }
    assert fieldPatterns[..|fieldPatterns|] == fieldPatterns;
  }

  /** The cleaning loop: each entry is cleaned step by step and kept when it is
      long enough. Entries are taken in no particular order, so the result does
      not depend on the order of the dictionary. */
  method CleanExtractedFields(fields: map<string, string>) returns (cleaned: map<string, string>)
    ensures cleaned == CleanFields(fields)
  {
    cleaned := map[];
    var todo := fields.Keys;
    ghost var done: set<string> := {};
    while todo != {}
      invariant done + todo == fields.Keys && done !! todo
      invariant cleaned == KeepOn(fields, done, CleanValue)
      decreases |todo|
    {
      var key :| key in todo;
      KeepOnStep(fields, done, CleanValue, key);
      var kept := CleanEntry(key, fields[key]);
      if kept.Some? {
        cleaned := cleaned[key := kept.value];
      }
      done := done + {key};
      todo := todo - {key};
    }
  }

  /** The body of the cleaning loop for one entry: `None` when it is dropped. */
  method CleanEntry(key: string, value: string) returns (kept: Option<string>)
    ensures kept == CleanValue(key, value)
  {
    kept := None;
    var v := value;
    if v != [] && Strip(v) != [] {
      v := StripNoise(v);
      v := Strip(v);
      ghost var stripped := v;
      if key == "date_of_birth" || key == "expiry_date" {
        v := NormaliseDate(v);
      } else if key == "phone" {
        v := NormalisePhone(v);
      } else if key == "name" {
        v := CapitalizeWords(v);
      }
      assert v == CanonicalForm(key, stripped);
      if |v| > 2 {
        kept := Some(v);
      }
    }
  }

  /** Cleaning one more entry adds it when it is kept. */
  lemma KeepOnStep(m: map<string, string>, done: set<string>, clean: (string, string) -> Option<string>, key: string)
    requires key in m
    ensures KeepOn(m, done + {key}, clean)
              == if clean(key, m[key]).Some? then KeepOn(m, done, clean)[key := clean(key, m[key]).value]
                 else KeepOn(m, done, clean)
  {
  }

  /** `extract_structured_fields`: empty text gives no fields; otherwise the
      text is flattened to one lower-case line, searched, and cleaned. */
  method ExtractStructuredFields(fieldPatterns: seq<FieldRule>, text: string, search: Matcher)
    returns (fields: map<string, string>)
    ensures fields == ExtractFields(fieldPatterns, text, search)
  {
    if text == [] {
      return map[];
    }
    var textLines := SplitLines(text);
    var fullText := Lower(JoinWords(textLines));
    var extractedFields := ExtractRawFields(fieldPatterns, fullText, search);
    fields := CleanExtractedFields(extractedFields);
  }
}
