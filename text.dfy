/** The parts of Python's `str` that the rule engine relies on, stated over
    `seq<char>`: whitespace, `strip()`, `lower()`, the `in` substring test,
    `split()` with `' '.join`, `capitalize()` and `title()`.
    Letter case is mapped for the ASCII letters only. */
module Text {

  /** `str.isspace()`; `strip()`, `split()` and the regex class `\s` use the same set. */
  predicate IsSpace(c: char) {
    || c == ' '
    || ('\t' <= c <= '\r')
    || ('\U{1C}' <= c <= '\U{1F}')
    || c == '\U{85}' || c == '\U{A0}' || c == '\U{1680}'
    || ('\U{2000}' <= c <= '\U{200A}')
    || c == '\U{2028}' || c == '\U{2029}' || c == '\U{202F}' || c == '\U{205F}'
    || c == '\U{3000}'
  }

  predicate IsUpper(c: char) { 'A' <= c <= 'Z' }
  predicate IsLower(c: char) { 'a' <= c <= 'z' }
  predicate IsCased(c: char) { IsUpper(c) || IsLower(c) }

  function LowerChar(c: char): (d: char)
    ensures !IsUpper(d)
    ensures IsCased(d) <==> IsCased(c)
    ensures !IsCased(c) ==> d == c
  {
    if IsUpper(c) then (c as int + 32) as char else c
  }

  function UpperChar(c: char): (d: char)
    ensures !IsLower(d)
    ensures IsCased(d) <==> IsCased(c)
    ensures !IsCased(c) ==> d == c
  {
    if IsLower(c) then (c as int - 32) as char else c
  }

  /** `s.lower()` */
  function Lower(s: string): (r: string)
    ensures |r| == |s|
    ensures forall i :: 0 <= i < |s| ==> !IsUpper(r[i]) && (!IsCased(s[i]) ==> r[i] == s[i])
    ensures forall i :: 0 <= i < |s| ==> r[i] == LowerChar(s[i])
  {
    seq(|s|, i requires 0 <= i < |s| => LowerChar(s[i]))
  }

  /** `s.lstrip()` */
  function TrimStart(s: string): (r: string)
    ensures |r| <= |s| && r == s[|s| - |r|..]
    ensures r == [] || !IsSpace(r[0])
  {
    if s != [] && IsSpace(s[0]) then TrimStart(s[1..]) else s
  }

  /** `lstrip()` drops only whitespace. */
  lemma {:induction false} TrimStartDropsSpace(s: string)
    ensures forall i :: 0 <= i < |s| - |TrimStart(s)| ==> IsSpace(s[i])
  {
    if s != [] && IsSpace(s[0]) {
      TrimStartDropsSpace(s[1..]);
      forall i | 0 <= i < |s| - |TrimStart(s)| ensures IsSpace(s[i]) {
        if i > 0 {
          assert s[i] == s[1..][i - 1];
        }
      }
    }
  }

  /** `s.rstrip()` */
  function TrimEnd(s: string): (r: string)
    ensures |r| <= |s| && r == s[..|r|]
    ensures r == [] || !IsSpace(r[|r| - 1])
  {
    if s != [] && IsSpace(s[|s| - 1]) then TrimEnd(s[..|s| - 1]) else s
  }

  /** `rstrip()` drops only whitespace. */
  lemma {:induction false} TrimEndDropsSpace(s: string)
    ensures forall i :: |TrimEnd(s)| <= i < |s| ==> IsSpace(s[i])
  {
    if s != [] && IsSpace(s[|s| - 1]) {
      TrimEndDropsSpace(s[..|s| - 1]);
    }
  }

  /** Neither starts nor ends with whitespace. */
  predicate Stripped(s: string) {
    s == [] || (!IsSpace(s[0]) && !IsSpace(s[|s| - 1]))
  }

  /** `s.strip()`: the result is the piece of `s` after its leading whitespace
      that neither starts nor ends with whitespace, and it is empty exactly when
      `s` is all whitespace. */
  function Strip(s: string): (r: string)
    ensures Stripped(r)
    ensures r == [] <==> forall i :: 0 <= i < |s| ==> IsSpace(s[i])
    ensures Stripped(s) ==> r == s
  {
    TrimBlank(s);
    TrimStripped(s);
    TrimEnd(TrimStart(s))
  }

  /** Trimming both ends leaves a stripped string, and a stripped string as it is. */
  lemma TrimStripped(s: string)
    ensures Stripped(TrimEnd(TrimStart(s)))
    ensures Stripped(s) ==> TrimEnd(TrimStart(s)) == s
  {
    var t := TrimStart(s);
    var r := TrimEnd(t);
    if r != [] {
      assert r[0] == t[0];
    }
    if Stripped(s) && s != [] {
      assert t == s;
    }
  }

  /** Trimming both ends leaves nothing exactly when `s` is all whitespace. */
  lemma TrimBlank(s: string)
    ensures TrimEnd(TrimStart(s)) == [] <==> forall i :: 0 <= i < |s| ==> IsSpace(s[i])
  {
    var t := TrimStart(s);
    TrimStartDropsSpace(s);
    TrimEndDropsSpace(t);
    if t != [] {
      assert !IsSpace(s[|s| - |t|]);
    } else {
      assert |s| - |t| == |s|;
    }
  }

  /** `w in t` for strings: `w` occurs in `t` starting at index `i`. */
  predicate OccursAt(t: string, w: string, i: int) {
    0 <= i && i + |w| <= |t| && t[i..i + |w|] == w
  }

  /** `w in t` for strings (substring containment, no word boundaries). */
  predicate Contains(t: string, w: string) {
    exists i :: 0 <= i <= |t| && OccursAt(t, w, i)
  }

  /** A non-empty run of characters none of which is whitespace. */
  ghost predicate IsWord(w: string) {
    w != [] && NoSpace(w)
  }

  /** No character of `w` is whitespace. */
  ghost predicate NoSpace(w: string) {
    forall i :: 0 <= i < |w| ==> !IsSpace(w[i])
  }

  /** The longest prefix of `s` holding no whitespace. */
  function WordAt(s: string): (w: string)
    ensures |w| <= |s| && w == s[..|w|]
    ensures NoSpace(w)
    ensures |w| == |s| || IsSpace(s[|w|])
    ensures s != [] && !IsSpace(s[0]) ==> w != []
  {
    if s == [] || IsSpace(s[0]) then [] else [s[0]] + WordAt(s[1..])
  }

  /** Every entry of `ws` is a word. */
  ghost predicate AllWords(ws: seq<string>) {
    forall k :: 0 <= k < |ws| ==> IsWord(ws[k])
  }

  /** `s.split()`: the maximal whitespace-free runs of `s`, in order. */
  function Words(s: string): (ws: seq<string>)
    ensures AllWords(ws)
    decreases |s|
  {
    var t := TrimStart(s);
    if t == [] then []
    else
      var w := WordAt(t);
      var more := Words(t[|w|..]);
      ConsAllWords(w, more);
      [w] + more
  }

  lemma ConsAllWords(w: string, more: seq<string>)
    requires IsWord(w) && AllWords(more)
    ensures AllWords([w] + more)
  {
    forall k | 0 <= k < |more| + 1 ensures IsWord(([w] + more)[k]) {
      if k > 0 { assert ([w] + more)[k] == more[k - 1]; }
    }
  }

  /** `' '.join(ws)` */
  function JoinWords(ws: seq<string>): string
  {
    if ws == [] then []
    else if |ws| == 1 then ws[0]
    else ws[0] + " " + JoinWords(ws[1..])
  }

  /** `w.capitalize()`: first character upper case, the rest lower case. */
  function Capitalize(w: string): (r: string)
    ensures |r| == |w|
    ensures r != [] ==> !IsLower(r[0])
    ensures forall i :: 1 <= i < |r| ==> !IsUpper(r[i])
    ensures forall i :: 0 <= i < |w| ==> (IsSpace(r[i]) <==> IsSpace(w[i]))
    ensures forall i :: 0 <= i < |w| ==> (IsCased(r[i]) <==> IsCased(w[i]))
    ensures forall i :: 0 <= i < |w| && !IsCased(w[i]) ==> r[i] == w[i]
  {
    if w == [] then []
    else
      var r := [UpperChar(w[0])] + Lower(w[1..]);
      assert forall i :: 1 <= i < |r| ==> r[i] == LowerChar(w[i]);
      r
  }

  /** Capitalizes every word of a list. */
  function CapitalizeAll(ws: seq<string>): (cs: seq<string>)
    ensures |cs| == |ws|
    ensures forall i :: 0 <= i < |ws| ==> cs[i] == Capitalize(ws[i])
  {
    seq(|ws|, i requires 0 <= i < |ws| => Capitalize(ws[i]))
  }

  /** `' '.join(word.capitalize() for word in s.split())` */
  function CapitalizeWords(s: string): string {
    JoinWords(CapitalizeAll(Words(s)))
  }

  /** `s.title()` continued after a character that was cased (`afterCased`) or not. */
  function TitleFrom(s: string, afterCased: bool): (r: string)
    ensures |r| == |s|
  {
    if s == [] then []
    else
      var c := s[0];
      var d := if !IsCased(c) then c else if afterCased then LowerChar(c) else UpperChar(c);
      [d] + TitleFrom(s[1..], IsCased(c))
  }

  /** `s.title()`: a cased letter is upper case when the character before it is
      not cased and lower case when it is; everything else is kept. */
  function Title(s: string): string {
    TitleFrom(s, false)
  }

  /** At every index, `s.title()` upper-cases a cased letter that follows an
      uncased character (or starts the string), lower-cases one that follows a
      cased character, and keeps every other character. */
  lemma {:induction false} TitleAt(s: string, i: nat)
    requires i < |s|
    ensures |Title(s)| == |s|
    ensures !IsCased(s[i]) ==> Title(s)[i] == s[i]
    ensures IsCased(s[i]) && (i == 0 || !IsCased(s[i - 1])) ==> Title(s)[i] == UpperChar(s[i])
    ensures IsCased(s[i]) && i > 0 && IsCased(s[i - 1]) ==> Title(s)[i] == LowerChar(s[i])
  {
    TitleFromAt(s, false, i);
  }

  lemma {:induction false} TitleFromAt(s: string, afterCased: bool, i: nat)
    requires i < |s|
    ensures !IsCased(s[i]) ==> TitleFrom(s, afterCased)[i] == s[i]
    ensures IsCased(s[i]) && !(if i == 0 then afterCased else IsCased(s[i - 1])) ==>
              TitleFrom(s, afterCased)[i] == UpperChar(s[i])
    ensures IsCased(s[i]) && (if i == 0 then afterCased else IsCased(s[i - 1])) ==>
              TitleFrom(s, afterCased)[i] == LowerChar(s[i])
  {
    if i > 0 {
      TitleFromAt(s[1..], IsCased(s[0]), i - 1);
    }
  }

  /** `s.title()` changes only letters, so it keeps a string stripped and
      single-spaced. */
  lemma TitleKeepsSpacing(s: string)
    ensures Stripped(s) ==> Stripped(Title(s))
    ensures SingleSpaced(s) ==> SingleSpaced(Title(s))
  {
    var r := Title(s);
    forall i | 0 <= i < |s|
      ensures (IsSpace(r[i]) <==> IsSpace(s[i])) && (IsSpace(s[i]) ==> r[i] == s[i])
    {
      TitleAt(s, i);
    }
    SameSpacing(s, r);
  }

  /** Two strings of one length with whitespace at the same places, and the same
      whitespace there, are equally stripped and equally single-spaced. */
  lemma SameSpacing(s: string, r: string)
    requires |r| == |s|
    requires forall i :: 0 <= i < |s| ==> (IsSpace(r[i]) <==> IsSpace(s[i])) && (IsSpace(s[i]) ==> r[i] == s[i])
    ensures Stripped(s) ==> Stripped(r)
    ensures SingleSpaced(s) ==> SingleSpaced(r)
  {
  }

  /** A word followed by whitespace (or by nothing) is what `WordAt` reads. */
  lemma {:induction false} WordAtWord(w: string, rest: string)
    requires NoSpace(w)
    requires rest == [] || IsSpace(rest[0])
    ensures WordAt(w + rest) == w
  {
    if w != [] {
      assert (w + rest)[1..] == w[1..] + rest;
      WordAtWord(w[1..], rest);
    }
  }

  /** `split()` of a word, a space and a string that does not start with
      whitespace reads the word and continues with that string. */
  lemma {:induction false} WordsCons(w: string, tail: string)
    requires IsWord(w)
    requires tail == [] || !IsSpace(tail[0])
    ensures Words(w + " " + tail) == [w] + Words(tail)
  {
    var rest := " " + tail;
    var j := w + rest;
    AppendAssoc(w, " ", tail);
    assert j[0] == w[0];
    assert TrimStart(j) == j;
    WordAtWord(w, rest);
    DropPrefix(w, rest);
    assert Words(j) == [w] + Words(rest);
    WordsLeadingSpace(tail);
  }

  lemma DropPrefix(a: string, b: string)
    ensures (a + b)[|a|..] == b
  {
  }

  /** A leading space does not change `split()`. */
  lemma WordsLeadingSpace(s: string)
    ensures Words(" " + s) == Words(s)
  {
    assert (" " + s)[1..] == s;
    assert TrimStart(" " + s) == TrimStart(s);
  }

  /** `' '.join` of words neither starts nor ends with whitespace, and
      `split()` gives the words back. */
  lemma {:induction false} WordsOfJoin(ws: seq<string>)
    requires AllWords(ws)
    ensures Stripped(JoinWords(ws))
    ensures JoinWords(ws) != [] <==> ws != []
    ensures Words(JoinWords(ws)) == ws
  {
    if ws == [] {
    } else if |ws| == 1 {
      WordsOfJoinSingle(ws);
    } else {
      AllWordsTail(ws);
      WordsOfJoin(ws[1..]);
      WordsOfJoinStep(ws);
    }
  }

  /** The base case of `WordsOfJoin`: a single word. */
  lemma WordsOfJoinSingle(ws: seq<string>)
    requires |ws| == 1 && AllWords(ws)
    ensures Stripped(JoinWords(ws)) && JoinWords(ws) != []
    ensures Words(JoinWords(ws)) == ws
  {
    WordsOfWord(ws[0]);
    Singleton(ws);
  }

  lemma Singleton<T>(xs: seq<T>)
    requires |xs| == 1
    ensures xs == [xs[0]]
  {
  }

  /** The induction step of `WordsOfJoin`: the first word, a space and the
      join of the rest. */
  lemma WordsOfJoinStep(ws: seq<string>)
    requires |ws| >= 2 && AllWords(ws)
    requires var tail := JoinWords(ws[1..]);
             Stripped(tail) && tail != [] && Words(tail) == ws[1..]
    ensures Stripped(JoinWords(ws)) && JoinWords(ws) != []
    ensures Words(JoinWords(ws)) == ws
  {
    var w := ws[0];
    assert IsWord(w);
    var tail := JoinWords(ws[1..]);
    assert JoinWords(ws) == w + " " + tail;
    WordsCons(w, tail);
    StrippedJoin(w, tail);
    HeadTail(ws);
  }

  /** `split()` of a single word is that word. */
  lemma WordsOfWord(w: string)
    requires IsWord(w)
    ensures Words(w) == [w] && Stripped(w)
  {
    WordAtWord(w, []);
    assert w + [] == w;
  }

  lemma HeadTail<T>(ws: seq<T>)
    requires ws != []
    ensures [ws[0]] + ws[1..] == ws
  {
  }

  lemma AllWordsTail(ws: seq<string>)
    requires AllWords(ws) && ws != []
    ensures AllWords(ws[1..])
  {
    forall k | 0 <= k < |ws| - 1 ensures IsWord(ws[1..][k]) {
      assert ws[1..][k] == ws[k + 1];
    }
  }

  /** A word, a space and a non-empty stripped string make a stripped string. */
  lemma StrippedJoin(w: string, tail: string)
    requires IsWord(w) && tail != [] && Stripped(tail)
    ensures Stripped(w + " " + tail) && w + " " + tail != []
  {
    var j := w + " " + tail;
    assert j[0] == w[0];
    assert j[|j| - 1] == tail[|tail| - 1];
  }

  /** Capitalizing twice is capitalizing once. */
  lemma {:induction false} CapitalizeIdempotent(w: string)
    ensures Capitalize(Capitalize(w)) == Capitalize(w)
  {
    if w != [] {
      var c := Capitalize(w);
      assert c[1..] == Lower(w[1..]);
      assert Lower(c[1..]) == c[1..];
    }
  }

  /** A capitalized word is still a word. */
  lemma {:induction false} CapitalizeWord(w: string)
    requires IsWord(w)
    ensures IsWord(Capitalize(w))
  {
  }

  /** The words of `CapitalizeWords(s)` are the capitalized words of `s`, and
      the result neither starts nor ends with whitespace. */
  lemma {:induction false} WordsOfCapitalizeWords(s: string)
    ensures Stripped(CapitalizeWords(s))
    ensures Words(CapitalizeWords(s)) == CapitalizeAll(Words(s))
  {
    var cs := CapitalizeAll(Words(s));
    forall i | 0 <= i < |cs| ensures IsWord(cs[i]) {
      CapitalizeWord(Words(s)[i]);
    }
    WordsOfJoin(cs);
  }

  /** Capitalizing the words of a string twice changes nothing the second time. */
  lemma {:induction false} CapitalizeWordsIdempotent(s: string)
    ensures CapitalizeWords(CapitalizeWords(s)) == CapitalizeWords(s)
  {
    var cs := CapitalizeAll(Words(s));
    WordsOfCapitalizeWords(s);
    assert Words(CapitalizeWords(s)) == cs;
    CapitalizeAllIdempotent(Words(s));
  }

  lemma CapitalizeAllIdempotent(ws: seq<string>)
    ensures CapitalizeAll(CapitalizeAll(ws)) == CapitalizeAll(ws)
  {
    var cs := CapitalizeAll(ws);
    forall i | 0 <= i < |ws| ensures CapitalizeAll(cs)[i] == cs[i] {
      CapitalizeIdempotent(ws[i]);
    }
  }

  // ---------------------------------------------------------------------------
  // Whitespace runs and lines

  /** The characters of `s` that are not whitespace, in order. */
  ghost function NonSpace(s: string): string {
    if s == [] then [] else (if IsSpace(s[0]) then [] else [s[0]]) + NonSpace(s[1..])
  }

  /** `re.sub(r'\s+', ' ', s)`: every run of whitespace becomes a single space. */
  function CollapseSpaces(s: string): (r: string)
    ensures |r| <= |s|
    ensures r == [] <==> s == []
    ensures r != [] ==> (IsSpace(r[0]) <==> IsSpace(s[0]))
    ensures r != [] ==> (IsSpace(r[|r| - 1]) <==> IsSpace(s[|s| - 1]))
    decreases |s|
  {
    if s == [] then []
    else if IsSpace(s[0]) then
      var t := TrimStart(s[1..]);
      TrimStartDropsSpace(s[1..]);
      [' '] + CollapseSpaces(t)
    else [s[0]] + CollapseSpaces(s[1..])
  }

  /** Single spacing: every whitespace character is a space and none is
      followed by another. */
  ghost predicate SingleSpaced(s: string) {
    forall i :: 0 <= i < |s| && IsSpace(s[i]) ==> s[i] == ' ' && (i + 1 == |s| || !IsSpace(s[i + 1]))
  }

  /** Collapsing leaves single spacing and exactly the same non-whitespace text. */
  lemma CollapseSpacesMeaning(s: string)
    ensures SingleSpaced(CollapseSpaces(s))
    ensures NonSpace(CollapseSpaces(s)) == NonSpace(s)
  {
    CollapseSingleSpaced(s);
    CollapseKeepsText(s);
  }

  lemma {:induction false} CollapseSingleSpaced(s: string)
    ensures SingleSpaced(CollapseSpaces(s))
    decreases |s|
  {
    if s != [] {
      if IsSpace(s[0]) {
        var t := TrimStart(s[1..]);
        CollapseSingleSpaced(t);
        ConsSingleSpaced(' ', CollapseSpaces(t));
      } else {
        CollapseSingleSpaced(s[1..]);
        ConsSingleSpaced(s[0], CollapseSpaces(s[1..]));
      }
    }
  }

  /** A character put in front of a single-spaced string keeps it single-spaced
      when it is not whitespace, or is a space before a non-whitespace start. */
  lemma ConsSingleSpaced(x: char, c: string)
    requires SingleSpaced(c)
    requires IsSpace(x) ==> x == ' ' && (c == [] || !IsSpace(c[0]))
    ensures SingleSpaced([x] + c)
  {
    var r := [x] + c;
    forall i | 0 <= i < |r| && IsSpace(r[i])
      ensures r[i] == ' ' && (i + 1 == |r| || !IsSpace(r[i + 1]))
    {
      if i > 0 {
        assert r[i] == c[i - 1];
        if i + 1 < |r| { assert r[i + 1] == c[i]; }
      } else if i + 1 < |r| {
        assert r[1] == c[0];
      }
    }
  }

  lemma {:induction false} CollapseKeepsText(s: string)
    ensures NonSpace(CollapseSpaces(s)) == NonSpace(s)
    decreases |s|
  {
    if s != [] {
      var r := CollapseSpaces(s);
      if IsSpace(s[0]) {
        var t := TrimStart(s[1..]);
        CollapseKeepsText(t);
        NonSpaceTrimStart(s[1..]);
        assert r[1..] == CollapseSpaces(t);
      } else {
        CollapseKeepsText(s[1..]);
        assert r[1..] == CollapseSpaces(s[1..]);
      }
    }
  }

  /** Leading whitespace carries no text. */
  lemma {:induction false} NonSpaceTrimStart(s: string)
    ensures NonSpace(TrimStart(s)) == NonSpace(s)
    decreases |s|
  {
    if s != [] && IsSpace(s[0]) {
      NonSpaceTrimStart(s[1..]);
      assert TrimStart(s) == TrimStart(s[1..]);
    }
  }

  /** Collapsing the whitespace of the stripped text gives its words joined by
      single spaces: `re.sub(r'\s+', ' ', s.strip()) == ' '.join(s.split())`. */
  lemma CollapseIsJoinOfWords(s: string)
    ensures CollapseSpaces(Strip(s)) == JoinWords(Words(s))
  {
    CollapseStripped(Strip(s));
    WordsTrimStart(s);
    WordsTrimEnd(TrimStart(s));
  }

  /** The words of `s`, joined, hold exactly the non-whitespace characters of
      `s`, in order: `split()` loses and reorders nothing. */
  lemma WordsKeepText(s: string)
    ensures NonSpace(JoinWords(Words(s))) == NonSpace(s)
  {
    CollapseIsJoinOfWords(s);
    CollapseKeepsText(Strip(s));
    NonSpaceTrimEnd(TrimStart(s));
    NonSpaceTrimStart(s);
  }

  /** Trailing whitespace carries no text. */
  lemma NonSpaceTrimEnd(s: string)
    ensures NonSpace(TrimEnd(s)) == NonSpace(s)
  {
    var t := TrimEnd(s);
    var blank := s[|t|..];
    assert s == t + blank;
    TrimEndDropsSpace(s);
    NonSpaceAppend(t, blank);
    NonSpaceBlank(blank);
    assert t + [] == t;
  }

  lemma {:induction false} NonSpaceAppend(a: string, b: string)
    ensures NonSpace(a + b) == NonSpace(a) + NonSpace(b)
  {
    if a == [] {
      assert a + b == b;
    } else {
      var h := if IsSpace(a[0]) then [] else [a[0]];
      assert (a + b)[0] == a[0];
      assert (a + b)[1..] == a[1..] + b;
      NonSpaceAppend(a[1..], b);
      AppendAssoc(h, NonSpace(a[1..]), NonSpace(b));
    }
  }

  lemma {:induction false} NonSpaceBlank(s: string)
    requires forall i :: 0 <= i < |s| ==> IsSpace(s[i])
    ensures NonSpace(s) == []
  {
    if s != [] {
      assert forall i :: 0 <= i < |s| - 1 ==> s[1..][i] == s[i + 1];
      NonSpaceBlank(s[1..]);
    }
  }

  /** `CollapseIsJoinOfWords` for text that is already stripped. */
  lemma {:induction false} CollapseStripped(v: string)
    requires Stripped(v)
    ensures CollapseSpaces(v) == JoinWords(Words(v))
    decreases |v|
  {
    if v != [] {
      var w := WordAt(v);
      var rest := v[|w|..];
      assert v == w + rest;
      assert TrimStart(v) == v;
      assert Words(v) == [w] + Words(rest);
      CollapseWordThen(w, rest);
      if rest == [] {
        assert Words(rest) == [];
        Singleton([w] + Words(rest));
      } else {
        var u := TrimStart(rest[1..]);
        TrimStartDropsSpace(rest[1..]);
        assert u != [];
        assert u[|u| - 1] == v[|v| - 1];
        CollapseStripped(u);
        WordsSkipSpace(rest);
        WordsTrimStart(rest[1..]);
        assert TrimStart(u) == u;
        assert Words(u) != [];
        JoinCons(w, Words(u));
        AppendAssoc(w, " ", JoinWords(Words(u)));
      }
    }
  }

  /** Collapsing a word followed by more text keeps the word as it is. */
  lemma {:induction false} CollapseWordThen(w: string, x: string)
    requires NoSpace(w)
    ensures CollapseSpaces(w + x) == w + CollapseSpaces(x)
  {
    if w == [] {
      assert w + x == x;
    } else {
      var t := w[1..];
      assert NoSpace(t) by {
        forall i | 0 <= i < |t| ensures !IsSpace(t[i]) {
          assert t[i] == w[i + 1];
        }
      }
      assert (w + x)[0] == w[0];
      assert (w + x)[1..] == t + x;
      CollapseWordThen(t, x);
      AppendAssoc([w[0]], t, CollapseSpaces(x));
      HeadTail(w);
    }
  }

  /** Whitespace in front does not change `split()`. */
  lemma WordsSkipSpace(s: string)
    requires s != [] && IsSpace(s[0])
    ensures Words(s) == Words(s[1..])
  {
    assert TrimStart(s) == TrimStart(s[1..]);
  }

  /** `split()` ignores leading whitespace. */
  lemma WordsTrimStart(s: string)
    ensures Words(TrimStart(s)) == Words(s)
  {
    var t := TrimStart(s);
    assert TrimStart(t) == t;
  }

  /** `split()` of a word and text that starts with whitespace, or is empty,
      reads the word first. */
  lemma WordsWordThen(w: string, x: string)
    requires IsWord(w)
    requires x == [] || IsSpace(x[0])
    ensures Words(w + x) == [w] + Words(x)
  {
    var j := w + x;
    assert j[0] == w[0];
    assert TrimStart(j) == j;
    WordAtWord(w, x);
    DropPrefix(w, x);
  }

  /** `rstrip()` of a concatenation strips the second part, or the first when
      the second is all whitespace. */
  lemma {:induction false} TrimEndAppend(a: string, r: string)
    ensures TrimEnd(a + r) == if TrimEnd(r) == [] then TrimEnd(a) else a + TrimEnd(r)
    decreases |r|
  {
    if r == [] {
      assert a + r == a;
    } else {
      var ar := a + r;
      assert ar[|ar| - 1] == r[|r| - 1];
      if IsSpace(r[|r| - 1]) {
        var shorter := r[..|r| - 1];
        assert ar[..|ar| - 1] == a + shorter;
        assert TrimEnd(ar) == TrimEnd(a + shorter);
        assert TrimEnd(r) == TrimEnd(shorter);
        TrimEndAppend(a, shorter);
      } else {
        assert TrimEnd(ar) == ar;
        assert TrimEnd(r) == r;
      }
    }
  }

  /** `split()` ignores trailing whitespace. */
  lemma {:induction false} WordsTrimEnd(u: string)
    ensures Words(TrimEnd(u)) == Words(u)
    decreases |u|
  {
    if u == [] {
    } else if IsSpace(u[0]) {
      var tail := u[1..];
      assert [u[0]] + tail == u;
      TrimEndAppend([u[0]], tail);
      WordsTrimEnd(tail);
      WordsSkipSpace(u);
      var t := TrimEnd(tail);
      if t == [] {
        assert TrimEnd([u[0]]) == [] by {
          assert [u[0]][..0] == [];
        }
      } else {
        DropCons(u[0], t);
        WordsSkipSpace([u[0]] + t);
      }
    } else {
      var w := WordAt(u);
      var rest := u[|w|..];
      assert u == w + rest;
      assert TrimStart(u) == u;
      assert Words(u) == [w] + Words(rest);
      WordsTrimEnd(rest);
      TrimEndAppend(w, rest);
      var t := TrimEnd(rest);
      if t == [] {
        assert TrimEnd(w) == w;
        WordsOfWord(w);
        assert [w] + Words(rest) == [w];
      } else {
        assert t[0] == rest[0];
        WordsWordThen(w, t);
      }
    }
  }

  /** `s.split('\n')`: the pieces between newline characters; there is always
      at least one, and none holds a newline. */
  function SplitLines(s: string): (parts: seq<string>)
    ensures |parts| >= 1
    ensures forall k, i :: 0 <= k < |parts| && 0 <= i < |parts[k]| ==> parts[k][i] != '\n'
  {
    if s == [] then [[]]
    else
      var rest := SplitLines(s[1..]);
      if s[0] == '\n' then [[]] + rest
      else [[s[0]] + rest[0]] + rest[1..]
  }

  /** Newlines turned into spaces, character by character. */
  function NewlinesToSpaces(s: string): (r: string)
    ensures |r| == |s|
    ensures forall i :: 0 <= i < |s| ==> r[i] == if s[i] == '\n' then ' ' else s[i]
  {
    seq(|s|, i requires 0 <= i < |s| => if s[i] == '\n' then ' ' else s[i])
  }

  /** `' '.join(s.split('\n'))` replaces every newline by a space and changes
      nothing else. */
  lemma {:induction false} JoinSplitLines(s: string)
    ensures JoinWords(SplitLines(s)) == NewlinesToSpaces(s)
  {
    if s != [] {
      var rest := SplitLines(s[1..]);
      JoinSplitLines(s[1..]);
      var n := NewlinesToSpaces(s);
      assert n == [n[0]] + NewlinesToSpaces(s[1..]);
      if s[0] == '\n' {
        JoinEmptyFirst(rest);
      } else {
        JoinExtendFirst(s[0], rest);
      }
    }
  }

  /** An empty first piece joins as a leading space. */
  lemma JoinEmptyFirst(ws: seq<string>)
    requires |ws| >= 1
    ensures JoinWords([[]] + ws) == " " + JoinWords(ws)
  {
    DropCons([], ws);
  }

  /** A character put in front of the first piece comes first in the join. */
  lemma JoinExtendFirst(c: char, ws: seq<string>)
    requires |ws| >= 1
    ensures JoinWords([[c] + ws[0]] + ws[1..]) == [c] + JoinWords(ws)
  {
    if |ws| == 1 {
      assert [[c] + ws[0]] + ws[1..] == [[c] + ws[0]];
    } else {
      var j := JoinWords(ws[1..]);
      JoinCons([c] + ws[0], ws[1..]);
      JoinCons(ws[0], ws[1..]);
      assert [ws[0]] + ws[1..] == ws;
      AppendAssoc([c], ws[0], " ");
      AppendAssoc([c], ws[0] + " ", j);
    }
  }

  lemma AppendAssoc(a: string, b: string, c: string)
    ensures (a + b) + c == a + (b + c)
  {
  }

  /** Joining a first piece before a non-empty rest puts a space between them. */
  lemma JoinCons(w: string, ws: seq<string>)
    requires |ws| >= 1
    ensures JoinWords([w] + ws) == w + " " + JoinWords(ws)
  {
    DropCons(w, ws);
  }

  lemma DropCons<T>(x: T, xs: seq<T>)
    ensures ([x] + xs)[1..] == xs
  {
  }
}
