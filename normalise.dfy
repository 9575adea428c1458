/** The value clean-up applied to every extracted document field: OCR noise
    removal, then a field-specific canonical form (dates, phone numbers,
    names), then rejection of trivial values. The two small regular
    expressions it uses, the date triple and the digit filter, are written out. */
module Normalise {
  import opened Wrappers
  import opened Text

  // ---------------------------------------------------------------------------
  // OCR noise

  /** The class `[|@#$%^&*]`. */
  predicate IsNoise(c: char) {
    c == '|' || c == '@' || c == '#' || c == '$' || c == '%' || c == '^' || c == '&' || c == '*'
  }

  ghost predicate NoiseFree(s: string) {
    forall i :: 0 <= i < |s| ==> !IsNoise(s[i])
  }

  /** `re.sub(r'[|@#$%^&*]', '', s)`: drops the noise characters and keeps the
      others in order. */
  function StripNoise(s: string): (r: string)
    ensures NoiseFree(r)
    ensures |r| <= |s|
    ensures NoiseFree(s) ==> r == s
  {
    if s == [] then []
    else (if IsNoise(s[0]) then [] else [s[0]]) + StripNoise(s[1..])
  }

  /** One character survives the noise filter exactly when it is not noise. */
  lemma StripNoiseChar(c: char)
    ensures StripNoise([c]) == if IsNoise(c) then [] else [c]
  {
    assert [c][1..] == [];
  }

  /** The noise filter works character by character: filtering a concatenation
      filters each part and keeps them in order. Together with `StripNoiseChar`
      this says every character that is not noise is kept, in its place. */
  lemma {:induction false} StripNoiseAppend(a: string, b: string)
    ensures StripNoise(a + b) == StripNoise(a) + StripNoise(b)
  {
    if a == [] {
      assert a + b == b;
    } else {
      var h := if IsNoise(a[0]) then [] else [a[0]];
      assert (a + b)[0] == a[0];
      assert (a + b)[1..] == a[1..] + b;
      StripNoiseAppend(a[1..], b);
      calc {
        StripNoise(a + b);
        h + StripNoise(a[1..] + b);
        h + (StripNoise(a[1..]) + StripNoise(b));
        (h + StripNoise(a[1..])) + StripNoise(b);
        StripNoise(a) + StripNoise(b);
      }
    }
  }

  /** A suffix of a noise-free string is noise-free. */
  lemma NoiseFreeDrop(s: string, a: nat)
    requires NoiseFree(s) && a <= |s|
    ensures NoiseFree(s[a..])
  {
    forall i | 0 <= i < |s| - a ensures !IsNoise(s[a..][i]) {
      assert s[a..][i] == s[a + i];
    }
  }

  /** A prefix of a noise-free string is noise-free. */
  lemma NoiseFreeTake(s: string, n: nat)
    requires NoiseFree(s) && n <= |s|
    ensures NoiseFree(s[..n])
  {
    forall i | 0 <= i < n ensures !IsNoise(s[..n][i]) {
      assert s[..n][i] == s[i];
    }
  }

  /** Stripping a noise-free string keeps it noise-free. */
  lemma StripNoiseFree(s: string)
    requires NoiseFree(s)
    ensures NoiseFree(Strip(s))
  {
    var t := TrimStart(s);
    NoiseFreeDrop(s, |s| - |t|);
    NoiseFreeTake(t, |TrimEnd(t)|);
  }

  // ---------------------------------------------------------------------------
  // Digits

  predicate IsDigit(c: char) { '0' <= c <= '9' }

  ghost predicate AllDigits(s: string) {
    forall i :: 0 <= i < |s| ==> IsDigit(s[i])
  }

  /** The decimal value of a digit string, as `int(s)` reads it. */
  function Val(s: string): nat
    requires AllDigits(s)
  {
    if s == [] then 0 else 10 * Val(s[..|s| - 1]) + (s[|s| - 1] as int - '0' as int)
  }

  /** Leading zeros do not change the value. */
  lemma {:induction false} ValZero(s: string)
    requires AllDigits(s)
    ensures AllDigits("0" + s) && Val("0" + s) == Val(s)
  {
    if s != [] {
      var n := |s| - 1;
      ValZero(s[..n]);
      assert ("0" + s)[..|"0" + s| - 1] == "0" + s[..n];
    }
  }

  /** Two digits written after a prefix add the prefix's value times 100. */
  lemma ValTwoMore(p: string, q: string)
    requires AllDigits(p) && AllDigits(q) && |q| == 2
    ensures AllDigits(p + q) && Val(p + q) == 100 * Val(p) + Val(q)
  {
    var s := p + q;
    var p1 := p + q[..1];
    assert s[..|s| - 1] == p1;
    assert p1[..|p1| - 1] == p;
    assert Val(p1) == 10 * Val(p) + (q[0] as int - '0' as int);
    assert q[..1][..0] == [];
    assert Val(q[..1]) == q[0] as int - '0' as int;
  }

  /** `re.sub(r'[^\d]', '', s)`: the digits of `s`, in order. */
  function Digits(s: string): (d: string)
    ensures AllDigits(d)
    ensures |d| <= |s|
  {
    if s == [] then []
    else (if IsDigit(s[0]) then [s[0]] else []) + Digits(s[1..])
  }

  lemma {:induction false} DigitsAppend(a: string, b: string)
    ensures Digits(a + b) == Digits(a) + Digits(b)
  {
    if a == [] {
      assert a + b == b;
    } else {
      var h := if IsDigit(a[0]) then [a[0]] else [];
      assert (a + b)[0] == a[0];
      assert (a + b)[1..] == a[1..] + b;
      DigitsAppend(a[1..], b);
      calc {
        Digits(a + b);
        h + Digits(a[1..] + b);
        h + (Digits(a[1..]) + Digits(b));
        (h + Digits(a[1..])) + Digits(b);
        Digits(a) + Digits(b);
      }
    }
  }

  /** One character survives the digit filter exactly when it is a digit;
      with `DigitsAppend` this says every digit is kept, in order. */
  lemma DigitsChar(c: char)
    ensures Digits([c]) == if IsDigit(c) then [c] else []
  {
    assert [c][1..] == [];
  }

  lemma {:induction false} DigitsOfDigits(d: string)
    requires AllDigits(d)
    ensures Digits(d) == d
  {
    if d != [] {
      DigitsOfDigits(d[1..]);
    }
  }

  // ---------------------------------------------------------------------------
  // Phone numbers

  /** `f"({d[:3]}) {d[3:6]}-{d[6:]}"` */
  function FormatPhone(d: string): string
    requires |d| == 10
  {
    "(" + d[..3] + ") " + d[3..6] + "-" + d[6..]
  }

  /** The phone clean-up: exactly ten digits are reformatted, anything else is kept. */
  function NormalisePhone(v: string): string {
    var d := Digits(v);
    if |d| == 10 then FormatPhone(d) else v
  }

  /** A formatted number reads "(ddd) ddd-dddd", and its digits are the ten
      digits it was made from. */
  lemma FormatPhoneShape(d: string)
    requires |d| == 10 && AllDigits(d)
    ensures var r := FormatPhone(d);
            && |r| == 14
            && r[0] == '(' && r[4] == ')' && r[5] == ' ' && r[9] == '-'
            && (forall i :: 0 <= i < 14 && i !in {0, 4, 5, 9} ==> IsDigit(r[i]))
            && Digits(r) == d
  {
    var r := FormatPhone(d);
    DigitsOfDigits(d[..3]);
    DigitsOfDigits(d[3..6]);
    DigitsOfDigits(d[6..]);
    DigitsAppend("(", d[..3]);
    DigitsAppend("(" + d[..3], ") ");
    DigitsAppend("(" + d[..3] + ") ", d[3..6]);
    DigitsAppend("(" + d[..3] + ") " + d[3..6], "-");
    DigitsAppend("(" + d[..3] + ") " + d[3..6] + "-", d[6..]);
    assert Digits("(") == [] && Digits(") ") == [] && Digits("-") == [];
    assert d[..3] + d[3..6] + d[6..] == d;
  }

  /** Normalising a phone value twice gives what normalising once gave. */
  lemma NormalisePhoneIdempotent(v: string)
    ensures NormalisePhone(NormalisePhone(v)) == NormalisePhone(v)
  {
    var d := Digits(v);
    if |d| == 10 {
      FormatPhoneShape(d);
    }
  }

  // ---------------------------------------------------------------------------
  // Dates

  predicate IsSep(c: char) { c == '-' || c == '/' }

  /** The length of the run of digits starting at index `i`. */
  function DigitRun(s: string, i: nat): (n: nat)
    requires i <= |s|
    ensures i + n <= |s|
    ensures forall k :: i <= k < i + n ==> IsDigit(s[k])
    ensures i + n == |s| || !IsDigit(s[i + n])
    decreases |s| - i
  {
    if i < |s| && IsDigit(s[i]) then 1 + DigitRun(s, i + 1) else 0
  }

  /** The three groups of `(\d{1,2})[-/](\d{1,2})[-/](\d{2,4})`. */
  datatype DateParts = DateParts(month: string, day: string, year: string)

  ghost predicate WellShaped(p: DateParts) {
    && 1 <= |p.month| <= 2 && AllDigits(p.month)
    && 1 <= |p.day| <= 2 && AllDigits(p.day)
    && 2 <= |p.year| <= 4 && AllDigits(p.year)
  }

  /** The lengths of the month, day and year groups of a match. */
  datatype Spans = Spans(month: nat, day: nat, year: nat)

  /** A match of the date pattern at `i` with these group lengths: digits,
      a separator, digits, a separator, digits, each group within its length
      bounds, and the year as long as the digits after it allow, up to four. */
  ghost predicate SpansFit(s: string, i: nat, sp: Spans) {
    var j := i + sp.month + 1;
    var k := j + sp.day + 1;
    && 1 <= sp.month <= 2 && 1 <= sp.day <= 2 && 2 <= sp.year <= 4
    && k + sp.year <= |s|
    && (forall q :: i <= q < j - 1 ==> IsDigit(s[q])) && IsSep(s[j - 1])
    && (forall q :: j <= q < k - 1 ==> IsDigit(s[q])) && IsSep(s[k - 1])
    && (forall q :: k <= q < k + sp.year ==> IsDigit(s[q]))
    && (sp.year == 4 || k + sp.year == |s| || !IsDigit(s[k + sp.year]))
  }

  /** Where the date pattern matches at index `i`, if it does. A one- or
      two-digit group must be the whole digit run before its separator (a
      two-digit run followed by a digit cannot match either way), and the year
      takes up to four of the digits that follow, at least two. */
  function MatchSpans(s: string, i: nat): (r: Option<Spans>)
    requires i <= |s|
    ensures r.Some? ==> SpansFit(s, i, r.value)
  {
    var mm := DigitRun(s, i);
    if !(1 <= mm <= 2 && i + mm < |s| && IsSep(s[i + mm])) then None
    else
      var j := i + mm + 1;
      var dd := DigitRun(s, j);
      if !(1 <= dd <= 2 && j + dd < |s| && IsSep(s[j + dd])) then None
      else
        var yy := DigitRun(s, j + dd + 1);
        if yy < 2 then None
        else Some(Spans(mm, dd, if yy < 4 then yy else 4))
  }

  /** The groups of a match, cut out of the text. */
  function Cut(s: string, i: nat, sp: Spans): (p: DateParts)
    requires SpansFit(s, i, sp)
    ensures |p.month| == sp.month && |p.day| == sp.day && |p.year| == sp.year
  {
    var j := i + sp.month + 1;
    var k := j + sp.day + 1;
    DateParts(s[i..j - 1], s[j..k - 1], s[k..k + sp.year])
  }

  /** `p` is spelled out in `s` from index `i` on, in a match of the date
      pattern: each group is the text between the separators. */
  ghost predicate DateLaidOut(s: string, i: nat, p: DateParts) {
    var sp := Spans(|p.month|, |p.day|, |p.year|);
    SpansFit(s, i, sp) && p == Cut(s, i, sp)
  }

  /** The groups cut from a match are digits of the lengths the pattern allows. */
  lemma CutWellShaped(s: string, i: nat, sp: Spans)
    requires SpansFit(s, i, sp)
    ensures WellShaped(Cut(s, i, sp)) && DateLaidOut(s, i, Cut(s, i, sp))
  {
    var p := Cut(s, i, sp);
    var j := i + sp.month + 1;
    var k := j + sp.day + 1;
    assert p.month == s[i..j - 1] && p.day == s[j..k - 1] && p.year == s[k..k + sp.year];
    assert AllDigits(p.month) by {
      forall q | 0 <= q < |p.month| ensures IsDigit(p.month[q]) { assert p.month[q] == s[i + q]; }
    }
    assert AllDigits(p.day) by {
      forall q | 0 <= q < |p.day| ensures IsDigit(p.day[q]) { assert p.day[q] == s[j + q]; }
    }
    assert AllDigits(p.year) by {
      forall q | 0 <= q < |p.year| ensures IsDigit(p.year[q]) { assert p.year[q] == s[k + q]; }
    }
  }

  /** `re.search` of the date pattern tried at index `i` of `s`: its groups,
      which are the text at `i`. */
  function DateAt(s: string, i: nat): (m: Option<DateParts>)
    requires i <= |s|
    ensures m.Some? ==> WellShaped(m.value) && DateLaidOut(s, i, m.value)
  {
    match MatchSpans(s, i)
    case None => None
    case Some(sp) => CutWellShaped(s, i, sp); Some(Cut(s, i, sp))
  }

  /** A digit run of length `n` that ends the text or is followed by a
      non-digit is the run `DigitRun` measures. */
  lemma {:induction false} DigitRunExact(s: string, i: nat, n: nat)
    requires i + n <= |s|
    requires forall q :: i <= q < i + n ==> IsDigit(s[q])
    requires i + n == |s| || !IsDigit(s[i + n])
    ensures DigitRun(s, i) == n
    decreases n
  {
    if n > 0 {
      DigitRunExact(s, i + 1, n - 1);
    }
  }

  /** Conversely, one or two digits, a separator, one or two digits, a
      separator and two digits at `i` always make a date there, with those
      month and day groups. */
  lemma DateAtComplete(s: string, i: nat, mm: nat, dd: nat)
    requires 1 <= mm <= 2 && 1 <= dd <= 2 && i + mm + dd + 4 <= |s|
    requires forall q :: i <= q < i + mm ==> IsDigit(s[q])
    requires IsSep(s[i + mm])
    requires forall q :: i + mm + 1 <= q < i + mm + 1 + dd ==> IsDigit(s[q])
    requires IsSep(s[i + mm + 1 + dd])
    requires IsDigit(s[i + mm + dd + 2]) && IsDigit(s[i + mm + dd + 3])
    ensures DateAt(s, i).Some?
    ensures DateAt(s, i).value.month == s[i..i + mm]
    ensures DateAt(s, i).value.day == s[i + mm + 1..i + mm + 1 + dd]
  {
    MatchSpansComplete(s, i, mm, dd);
    var sp := MatchSpans(s, i).value;
    CutGroups(s, i, sp);
  }

  /** `DateAtComplete` for the group lengths. */
  lemma MatchSpansComplete(s: string, i: nat, mm: nat, dd: nat)
    requires 1 <= mm <= 2 && 1 <= dd <= 2 && i + mm + dd + 4 <= |s|
    requires forall q :: i <= q < i + mm ==> IsDigit(s[q])
    requires IsSep(s[i + mm])
    requires forall q :: i + mm + 1 <= q < i + mm + 1 + dd ==> IsDigit(s[q])
    requires IsSep(s[i + mm + 1 + dd])
    requires IsDigit(s[i + mm + dd + 2]) && IsDigit(s[i + mm + dd + 3])
    ensures MatchSpans(s, i).Some?
    ensures MatchSpans(s, i).value.month == mm && MatchSpans(s, i).value.day == dd
  {
    var j := i + mm + 1;
    var k := j + dd + 1;
    DigitRunExact(s, i, mm);
    DigitRunExact(s, j, dd);
    assert DigitRun(s, k + 1) >= 1;
    assert DigitRun(s, k) >= 2;
  }

  /** The month and day of a match start at `i` and after the first separator. */
  lemma CutGroups(s: string, i: nat, sp: Spans)
    requires SpansFit(s, i, sp)
    ensures Cut(s, i, sp).month == s[i..i + sp.month]
    ensures Cut(s, i, sp).day == s[i + sp.month + 1..i + sp.month + 1 + sp.day]
  {
  }

  /** The first `Some` among `f(from)`, ..., `f(last)`, or `None`. */
  function FirstSome<T>(f: nat -> Option<T>, from: nat, last: nat): (r: Option<T>)
    requires from <= last
    ensures r.Some? ==> exists i :: from <= i <= last && f(i) == r
    decreases last - from
  {
    if f(from).Some? || from == last then f(from) else FirstSome(f, from + 1, last)
  }

  /** `FirstSome` is `None` exactly when every candidate is, and otherwise the
      candidate at the least index that has one. */
  lemma {:induction false} FirstSomeLeftmost<T>(f: nat -> Option<T>, from: nat, last: nat)
    requires from <= last
    ensures FirstSome(f, from, last).None? <==> forall i :: from <= i <= last ==> f(i).None?
    ensures FirstSome(f, from, last).Some? ==>
              exists i :: from <= i <= last && f(i) == FirstSome(f, from, last)
                          && forall k :: from <= k < i ==> f(k).None?
    decreases last - from
  {
    if f(from).None? && from < last {
      FirstSomeLeftmost(f, from + 1, last);
      if FirstSome(f, from + 1, last).Some? {
        var i :| from + 1 <= i <= last && f(i) == FirstSome(f, from + 1, last)
                 && forall k :: from + 1 <= k < i ==> f(k).None?;
        assert forall k :: from <= k < i ==> f(k).None?;
      }
    }
  }

  /** The date pattern at every index of `s`, and no match past its end. */
  function DatesOf(s: string): nat -> Option<DateParts> {
    (i: nat) => if i <= |s| then DateAt(s, i) else None
  }

  /** `re.search` of the date pattern from index `from` on. */
  function FindDate(s: string, from: nat): (m: Option<DateParts>)
    requires from <= |s|
    ensures m.Some? ==> WellShaped(m.value)
  {
    FirstSome(DatesOf(s), from, |s|)
  }

  /** The date search finds nothing exactly when no index matches, and
      otherwise returns the match at the leftmost index that matches. */
  lemma FindDateLeftmost(s: string, from: nat)
    requires from <= |s|
    ensures FindDate(s, from).None? <==> forall i :: from <= i <= |s| ==> DateAt(s, i).None?
    ensures FindDate(s, from).Some? ==>
              exists i :: from <= i <= |s| && DateAt(s, i) == FindDate(s, from)
                          && forall k :: from <= k < i ==> DateAt(s, k).None?
  {
    var f := DatesOf(s);
    FirstSomeLeftmost(f, from, |s|);
    assert forall i :: from <= i <= |s| ==> f(i) == DateAt(s, i);
  }

  /** A date the search finds is spelled out in the text, at or after `from`. */
  lemma FindDateInText(s: string, from: nat)
    requires from <= |s|
    ensures FindDate(s, from).Some? ==>
              exists i :: from <= i <= |s| && DateLaidOut(s, i, FindDate(s, from).value)
  {
    FindDateLeftmost(s, from);
    if FindDate(s, from).Some? {
      var i :| from <= i <= |s| && DateAt(s, i) == FindDate(s, from);
    }
  }

  /** `s.zfill(width)` for digit strings. */
  function ZFill(s: string, width: nat): (r: string)
    ensures |r| == if |s| < width then width else |s|
    ensures AllDigits(s) ==> AllDigits(r) && Val(r) == Val(s)
    decreases width - |s|
  {
    if |s| >= width then s
    else
      (if AllDigitsFn(s) then ValZero(s); ZFill("0" + s, width) else ZFill("0" + s, width))
  }

  /** `AllDigits` as a compiled test. */
  predicate AllDigitsFn(s: string)
    ensures AllDigitsFn(s) <==> AllDigits(s)
  {
    forall i | 0 <= i < |s| :: IsDigit(s[i])
  }

  /** A two-digit year below 50 is in the 2000s, otherwise in the 1900s; longer
      years are kept. */
  function ExpandYear(y: string): string
    requires AllDigits(y)
  {
    if |y| == 2 then Century(y) + y else y
  }

  /** The date clean-up: a found triple becomes "MM/DD/YYYY"; without one the
      value is kept. */
  function NormaliseDate(v: string): string {
    match FindDate(v, 0)
    case None => v
    case Some(p) => DateString(p)
  }

  /** `f"{month.zfill(2)}/{day.zfill(2)}/{year}"` with the year expanded. */
  function DateString(p: DateParts): string
    requires WellShaped(p)
  {
    ZFill(p.month, 2) + "/" + ZFill(p.day, 2) + "/" + ExpandYear(p.year)
  }

  /** The century a two-digit year gains at the pivot 50. */
  function Century(y: string): string
    requires AllDigits(y)
  {
    if Val(y) < 50 then "20" else "19"
  }

  /** A formatted date is two digits, '/', two digits, '/', and a year of three
      or four digits; month and day keep their values, and a two-digit year
      gains its century at the pivot 50. */
  lemma DateStringFormat(p: DateParts)
    requires WellShaped(p)
    ensures var r := DateString(p);
            && 9 <= |r| <= 10 && (|p.year| == 2 ==> |r| == 10)
            && r[2] == '/' && r[5] == '/'
            && AllDigits(r[..2]) && AllDigits(r[3..5]) && AllDigits(r[6..])
            && Val(r[..2]) == Val(p.month) && Val(r[3..5]) == Val(p.day)
            && Val(r[6..]) == (if |p.year| != 2 then Val(p.year)
                               else if Val(p.year) < 50 then 2000 + Val(p.year)
                               else 1900 + Val(p.year))
  {
    var mm, dd, yy := ZFill(p.month, 2), ZFill(p.day, 2), ExpandYear(p.year);
    Layout(mm, dd, yy);
    ExpandYearValue(p.year);
  }

  /** Where the three parts sit in "MM/DD/Y…". */
  lemma Layout(mm: string, dd: string, yy: string)
    requires |mm| == 2 && |dd| == 2
    ensures var r := mm + "/" + dd + "/" + yy;
            |r| == 6 + |yy| && r[2] == '/' && r[5] == '/'
            && r[..2] == mm && r[3..5] == dd && r[6..] == yy
  {
  }

  /** The expanded year's length and value. */
  lemma ExpandYearValue(y: string)
    requires AllDigits(y) && 2 <= |y| <= 4
    ensures var e := ExpandYear(y);
            && AllDigits(e) && 3 <= |e| <= 4 && (|y| == 2 ==> |e| == 4)
            && Val(e) == (if |y| != 2 then Val(y)
                          else if Val(y) < 50 then 2000 + Val(y)
                          else 1900 + Val(y))
  {
    if |y| == 2 {
      var c := Century(y);
      ValTwoMore(c, y);
      assert Val(c) == if Val(y) < 50 then 20 else 19 by {
        assert "20"[..1] == "2" && "19"[..1] == "1" && "2"[..0] == [] && "1"[..0] == [];
      }
    }
  }

  /** A formatted date is found again, whole, at its start and normalises to
      itself. */
  lemma DateStringFixed(p: DateParts)
    requires WellShaped(p)
    ensures var r := DateString(p);
            FindDate(r, 0) == Some(DateParts(r[..2], r[3..5], r[6..]))
            && NormaliseDate(r) == r
  {
    DateStringFormat(p);
    var r := DateString(p);
    FormattedDateAt(r);
    DateAtStart(r);
    RejoinDate(r);
  }

  /** The parts of a formatted date format back to it. */
  lemma RejoinDate(r: string)
    requires 9 <= |r| <= 10 && r[2] == '/' && r[5] == '/'
    requires AllDigits(r[..2]) && AllDigits(r[3..5]) && AllDigits(r[6..])
    ensures WellShaped(DateParts(r[..2], r[3..5], r[6..]))
    ensures DateString(DateParts(r[..2], r[3..5], r[6..])) == r
  {
    var q := DateParts(r[..2], r[3..5], r[6..]);
    assert ZFill(q.month, 2) == q.month && ZFill(q.day, 2) == q.day && ExpandYear(q.year) == q.year;
    assert r == q.month + "/" + q.day + "/" + q.year;
  }

  /** The date pattern matches a formatted date as a whole, at index 0. */
  lemma FormattedDateAt(r: string)
    requires 9 <= |r| <= 10 && r[2] == '/' && r[5] == '/'
    requires AllDigits(r[..2]) && AllDigits(r[3..5]) && AllDigits(r[6..])
    ensures DateAt(r, 0) == Some(DateParts(r[..2], r[3..5], r[6..]))
  {
    assert r[0] == r[..2][0] && r[1] == r[..2][1];
    assert r[3] == r[3..5][0] && r[4] == r[3..5][1];
    assert DigitRun(r, 0) == 2;
    assert DigitRun(r, 3) == 2;
    assert DigitRun(r, 6) == |r| - 6 by {
      forall k | 6 <= k < |r| ensures IsDigit(r[k]) { assert r[k] == r[6..][k - 6]; }
    }
    assert r[6..6 + (|r| - 6)] == r[6..];
  }

  /** A date at the very start is the one found. */
  lemma DateAtStart(s: string)
    requires DateAt(s, 0).Some?
    ensures FindDate(s, 0) == DateAt(s, 0)
    ensures NormaliseDate(s) == DateString(DateAt(s, 0).value)
  {
  }

  /** A two-digit year of 90 lands in the 1900s. */
  lemma DateExampleNineties()
    ensures NormaliseDate("5-21-90") == "05/21/1990"
  {
    DateExampleNinetiesFound();
    DateExampleNinetiesFormatted();
  }

  lemma DateExampleNinetiesFound()
    ensures NormaliseDate("5-21-90") == DateString(DateParts("5", "21", "90"))
  {
    var s := "5-21-90";
    assert DateAt(s, 0) == Some(DateParts("5", "21", "90")) by {
      assert DigitRun(s, 0) == 1 && DigitRun(s, 2) == 2 && DigitRun(s, 5) == 2;
      assert IsSep(s[1]) && IsSep(s[4]);
      assert s[0..1] == "5" && s[2..4] == "21" && s[5..7] == "90";
    }
    DateAtStart(s);
  }

  lemma DateExampleNinetiesFormatted()
    ensures DateString(DateParts("5", "21", "90")) == "05/21/1990"
  {
    assert Val("9") == 9 by { assert "9"[..0] == []; }
    assert "90"[..1] == "9";
    assert ZFill("5", 2) == "05";
  }

  /** A two-digit year of 08 lands in the 2000s. */
  lemma DateExampleNoughties()
    ensures NormaliseDate("5-21-08") == "05/21/2008"
  {
    DateExampleNoughtiesFound();
    DateExampleNoughtiesFormatted();
  }

  lemma DateExampleNoughtiesFound()
    ensures NormaliseDate("5-21-08") == DateString(DateParts("5", "21", "08"))
  {
    var s := "5-21-08";
    assert DateAt(s, 0) == Some(DateParts("5", "21", "08")) by {
      assert DigitRun(s, 0) == 1 && DigitRun(s, 2) == 2 && DigitRun(s, 5) == 2;
      assert IsSep(s[1]) && IsSep(s[4]);
      assert s[0..1] == "5" && s[2..4] == "21" && s[5..7] == "08";
    }
    DateAtStart(s);
  }

  lemma DateExampleNoughtiesFormatted()
    ensures DateString(DateParts("5", "21", "08")) == "05/21/2008"
  {
    assert Val("0") == 0 by { assert "0"[..0] == []; }
    assert "08"[..1] == "0";
    assert ZFill("5", 2) == "05";
  }

  // ---------------------------------------------------------------------------
  // One field value

  /** `_clean_extracted_fields` for one entry: `None` when the entry is dropped. */
  function CleanValue(key: string, value: string): (r: Option<string>)
    ensures r.Some? ==> |r.value| > 2 && NoiseFree(r.value) && Stripped(r.value)
  {
    if Strip(value) == [] then None
    else
      var v := Strip(StripNoise(value));
      StripNoiseFree(StripNoise(value));
      var w := CanonicalForm(key, v);
      CanonicalFormClean(key, v);
      if |w| > 2 then Some(w) else None
  }

  /** The field-specific step: dates and phone numbers take their canonical
      form, names have their words capitalized, other fields are kept. */
  function CanonicalForm(key: string, v: string): string {
    if key == "date_of_birth" || key == "expiry_date" then NormaliseDate(v)
    else if key == "phone" then NormalisePhone(v)
    else if key == "name" then CapitalizeWords(v)
    else v
  }

  /** The field-specific step keeps a stripped, noise-free value so. */
  lemma CanonicalFormClean(key: string, v: string)
    requires NoiseFree(v) && Stripped(v)
    ensures NoiseFree(CanonicalForm(key, v)) && Stripped(CanonicalForm(key, v))
  {
    if key == "date_of_birth" || key == "expiry_date" {
      if FindDate(v, 0).Some? {
        var p := FindDate(v, 0).value;
        DateStringFormat(p);
        DateClean(DateString(p));
      }
    } else if key == "phone" {
      if |Digits(v)| == 10 {
        PhoneClean(Digits(v));
      }
    } else if key == "name" {
      WordsOfCapitalizeWords(v);
      CapitalizeWordsNoiseFree(v);
    }
  }

  /** A normalised date is noise-free and starts and ends with a digit. */
  lemma DateClean(r: string)
    requires 9 <= |r| && r[2] == '/' && r[5] == '/'
    requires AllDigits(r[..2]) && AllDigits(r[3..5]) && AllDigits(r[6..])
    ensures NoiseFree(r) && Stripped(r)
  {
    assert r[0] == r[..2][0];
    assert r[|r| - 1] == r[6..][|r| - 7];
    forall i | 0 <= i < |r| ensures !IsNoise(r[i]) {
      if i < 2 { assert r[i] == r[..2][i]; }
      else if 2 < i < 5 { assert r[i] == r[3..5][i - 3]; }
      else if 5 < i { assert r[i] == r[6..][i - 6]; }
    }
  }

  /** A formatted phone number is noise-free and starts with '(' and ends with a digit. */
  lemma PhoneClean(d: string)
    requires |d| == 10 && AllDigits(d)
    ensures NoiseFree(FormatPhone(d)) && Stripped(FormatPhone(d))
  {
    FormatPhoneShape(d);
  }

  /** Capitalizing the words of a noise-free string keeps it noise-free. */
  lemma CapitalizeWordsNoiseFree(v: string)
    requires NoiseFree(v)
    ensures NoiseFree(CapitalizeWords(v))
  {
    var ws := Words(v);
    forall k | 0 <= k < |ws| ensures NoiseFree(CapitalizeAll(ws)[k]) {
      WordNoiseFree(v, ws, k);
    }
    JoinNoiseFree(CapitalizeAll(ws));
  }

  lemma WordNoiseFree(v: string, ws: seq<string>, k: nat)
    requires NoiseFree(v) && ws == Words(v) && k < |ws|
    ensures NoiseFree(Capitalize(ws[k]))
  {
    WordsNoiseFree(v, k);
  }

  /** The words of a noise-free string are noise-free. */
  lemma {:induction false} WordsNoiseFree(s: string, k: nat)
    requires NoiseFree(s) && k < |Words(s)|
    ensures NoiseFree(Words(s)[k])
    decreases |s|, 1
  {
    var t := TrimStart(s);
    var w := WordAt(t);
    assert Words(s) == [w] + Words(t[|w|..]);
    NoiseFreeDrop(s, |s| - |t|);
    if k == 0 {
      NoiseFreeTake(t, |w|);
    } else {
      LaterWordNoiseFree(s, k);
    }
  }

  /** The induction step of `WordsNoiseFree`: a word after the first. */
  lemma {:induction false} LaterWordNoiseFree(s: string, k: nat)
    requires NoiseFree(s) && 0 < k < |Words(s)|
    ensures NoiseFree(Words(s)[k])
    decreases |s|, 0
  {
    var t := TrimStart(s);
    var w := WordAt(t);
    var rest := t[|w|..];
    var more := Words(rest);
    assert Words(s) == [w] + more;
    NoiseFreeDrop(s, |s| - |t|);
    NoiseFreeDrop(t, |w|);
    WordsNoiseFree(rest, k - 1);
    ConsIndex(Words(s), w, more, k);
    SameNoiseFree(more[k - 1], Words(s)[k]);
  }

  lemma SameNoiseFree(a: string, b: string)
    requires NoiseFree(a) && a == b
    ensures NoiseFree(b)
  {
  }

  lemma ConsIndex<T>(ws: seq<T>, w: T, more: seq<T>, k: nat)
    requires ws == [w] + more && 0 < k < |ws|
    ensures ws[k] == more[k - 1]
  {
  }

  /** Joining noise-free words with spaces is noise-free. */
  lemma {:induction false} JoinNoiseFree(ws: seq<string>)
    requires forall k :: 0 <= k < |ws| ==> NoiseFree(ws[k])
    ensures NoiseFree(JoinWords(ws))
  {
    if |ws| > 1 {
      JoinNoiseFree(ws[1..]);
      var j := JoinWords(ws[1..]);
      assert NoiseFree(ws[0]);
      assert JoinWords(ws) == ws[0] + " " + j;
    }
  }

  /** Cleaning a kept value again keeps it unchanged: every canonical form is a
      fixed point. */
  lemma CleanValueIdempotent(key: string, value: string)
    requires CleanValue(key, value).Some?
    ensures CleanValue(key, CleanValue(key, value).value) == CleanValue(key, value)
  {
    var v := Strip(StripNoise(value));
    StripNoiseFree(StripNoise(value));
    var r := CanonicalForm(key, v);
    assert CleanValue(key, value) == Some(r);
    CanonicalFormClean(key, v);
    CanonicalFormFixed(key, v);
    assert Strip(r) == r && StripNoise(r) == r;
  }

  /** The field-specific step leaves its own output unchanged. */
  lemma CanonicalFormFixed(key: string, v: string)
    requires NoiseFree(v) && Stripped(v)
    ensures CanonicalForm(key, CanonicalForm(key, v)) == CanonicalForm(key, v)
  {
    if key == "date_of_birth" || key == "expiry_date" {
      NormaliseDateIdempotent(v);
    } else if key == "phone" {
      NormalisePhoneIdempotent(v);
    } else if key == "name" {
      CapitalizeWordsIdempotent(v);
    }
  }

  /** Normalising a date value twice gives what normalising once gave. */
  lemma NormaliseDateIdempotent(v: string)
    ensures NormaliseDate(NormaliseDate(v)) == NormaliseDate(v)
  {
    if FindDate(v, 0).Some? {
      DateStringFixed(FindDate(v, 0).value);
      assert NormaliseDate(v) == DateString(FindDate(v, 0).value);
    }
  }
}
