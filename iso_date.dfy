/** The YYYY-MM-DD strings the todo list stores in a todo's `date` field: how they are
    written (`String(n)`, `padStart`, `toISOString`) and how the filters read them back
    (`split('-')` followed by `Number` on each part). */
module IsoDate {
  import opened JsBuiltins
  import opened Calendar

  predicate IsDigit(c: char) {
    '0' <= c <= '9'
  }

  predicate AllDigits(s: string) {
    forall i :: 0 <= i < |s| ==> IsDigit(s[i])
  }

  function DigitChar(n: int): (c: char)
    requires 0 <= n < 10
    ensures IsDigit(c) && c as int - '0' as int == n
  {
    (n + '0' as int) as char
  }

  /** The value of a string of decimal digits (the empty string counts 0). */
  function DigitsValue(s: string): nat
    requires AllDigits(s)
  {
    if s == [] then 0 else 10 * DigitsValue(s[..|s| - 1]) + (s[|s| - 1] as int - '0' as int)
  }

  /** `String(n)` for a non-negative integer: its decimal digits, which read back as `n`. */
  function DecimalString(n: nat): (r: string)
    ensures 1 <= |r| && AllDigits(r) && DigitsValue(r) == n
    ensures r[0] == '0' ==> |r| == 1
    ensures n < 100 ==> |r| <= 2
    ensures n < 10000 ==> |r| <= 4
  {
    if n < 10 then [DigitChar(n)]
    else
      var r := DecimalString(n / 10) + [DigitChar(n % 10)];
      assert r[..|r| - 1] == DecimalString(n / 10);
      r
  }

  /** `String(n)` for any integer. */
  function IntString(n: int): (r: string)
    ensures n >= 0 ==> r == DecimalString(n)
    ensures n < 0 ==> r == "-" + DecimalString(-n)
  {
    if n < 0 then "-" + DecimalString(-n) else DecimalString(n)
  }

  /** `s.padStart(n, c)`: `s` preceded by as many `c` as it takes to reach length `n`. */
  function PadStart(s: string, n: nat, c: char): (r: string)
    ensures |r| == if |s| < n then n else |s|
    decreases n - |s|
  {
    if |s| < n then PadStart([c] + s, n, c) else s
  }

  /** What `padStart` adds is only `c`, in front: `s` is what follows. */
  lemma {:induction false} PadStartShape(s: string, n: nat, c: char)
    ensures var r := PadStart(s, n, c);
      r[|r| - |s|..] == s && forall i :: 0 <= i < |r| - |s| ==> r[i] == c
    decreases n - |s|
  {
    if |s| < n {
      PadStartShape([c] + s, n, c);
      var r := PadStart(s, n, c);
      assert r[|r| - |s|..] == r[|r| - |s| - 1..][1..];
    }
  }

  /** A leading zero leaves the value of a digit string unchanged. */
  lemma {:induction false} LeadingZero(s: string)
    requires AllDigits(s)
    ensures AllDigits("0" + s) && DigitsValue("0" + s) == DigitsValue(s)
  {
    if s != [] {
      assert ("0" + s)[..|s|] == "0" + s[..|s| - 1];
      LeadingZero(s[..|s| - 1]);
    }
  }

  /** Zero-padding a digit string keeps its value. */
  lemma {:induction false} ZeroPadKeepsValue(s: string, n: nat)
    requires AllDigits(s)
    ensures AllDigits(PadStart(s, n, '0')) && DigitsValue(PadStart(s, n, '0')) == DigitsValue(s)
    decreases n - |s|
  {
    if |s| < n {
      LeadingZero(s);
      ZeroPadKeepsValue("0" + s, n);
    }
  }

  /** The string of a date: its year part, then the month and the day padded to two digits,
      separated by '-'. */
  function DateString(yearPart: string, d: CalDate): string
    requires Valid(d)
  {
    yearPart + "-" + PadStart(DecimalString(d.month), 2, '0')
      + "-" + PadStart(DecimalString(d.day), 2, '0')
  }

  /** The shape every date string has: it ends in "-MM-DD", two zero-padded digits each. */
  predicate PaddedMonthDay(r: string, d: CalDate) {
    var n := |r|;
    && n >= 6 && r[n - 3] == '-' && r[n - 6] == '-'
    && AllDigits(r[n - 2..]) && DigitsValue(r[n - 2..]) == d.day
    && AllDigits(r[n - 5..n - 3]) && DigitsValue(r[n - 5..n - 3]) == d.month
  }

  lemma JoinedShape(y: string, m: string, dd: string, d: CalDate)
    requires |m| == 2 && |dd| == 2 && AllDigits(m) && AllDigits(dd)
    requires DigitsValue(m) == d.month && DigitsValue(dd) == d.day
    ensures PaddedMonthDay(y + "-" + m + "-" + dd, d)
  {
    var r := y + "-" + m + "-" + dd;
    var n := |r|;
    assert r[n - 2..] == dd;
    assert r[n - 5..n - 3] == m;
    assert r[n - 3] == '-' && r[n - 6] == '-';
  }

  /** `String(n).padStart(2, '0')` for 0 <= n < 100: two digits that read back as `n`. */
  lemma TwoDigits(n: nat)
    requires n < 100
    ensures var s := PadStart(DecimalString(n), 2, '0');
      |s| == 2 && AllDigits(s) && DigitsValue(s) == n
  {
    ZeroPadKeepsValue(DecimalString(n), 2);
  }

  lemma DateStringShape(yearPart: string, d: CalDate)
    requires Valid(d)
    ensures PaddedMonthDay(DateString(yearPart, d), d)
  {
    var m := PadStart(DecimalString(d.month), 2, '0');
    var dd := PadStart(DecimalString(d.day), 2, '0');
    TwoDigits(d.month);
    TwoDigits(d.day);
    JoinedShape(yearPart, m, dd, d);
    assert DateString(yearPart, d) == yearPart + "-" + m + "-" + dd;
  }

  /** `_getLocalISODate` of script.js: `String(getFullYear())`, then the month and the day
      zero-padded to two digits. */
  function LocalISODate(d: CalDate): (r: string)
    requires Valid(d)
    ensures PaddedMonthDay(r, d)
  {
    DateStringShape(IntString(d.year), d);
    DateString(IntString(d.year), d)
  }

  /** The date part of `toISOString()`, `split('T')[0]`: a four-digit year for years 0 to
      9999, otherwise a sign and six digits. */
  function UtcISODate(d: CalDate): string
    requires Valid(d)
  {
    var y := d.year;
    var yearPart :=
      if 0 <= y <= 9999 then PadStart(DecimalString(y), 4, '0')
      else (if y < 0 then "-" else "+") + PadStart(DecimalString(if y < 0 then -y else y), 6, '0');
    DateString(yearPart, d)
  }

  /** `s.split(c)`: the pieces of `s` between occurrences of `c`; "" splits into [""]. */
  function Split(s: string, c: char): (r: seq<string>)
    ensures |r| >= 1
    ensures forall i :: 0 <= i < |r| ==> c !in r[i]
  {
    if s == [] then [""]
    else
      var rest := Split(s[1..], c);
      if s[0] == c then [""] + rest else [[s[0]] + rest[0]] + rest[1..]
  }

  /** `parts.join(c)`: the parts with one `c` between each two neighbours. */
  function Join(parts: seq<string>, c: char): string
    requires |parts| >= 1
  {
    if |parts| == 1 then parts[0] else parts[0] + [c] + Join(parts[1..], c)
  }

  /** Joining the pieces of `s.split(c)` with `c` gives `s` back: the split loses nothing. */
  lemma {:induction false} SplitJoin(s: string, c: char)
    ensures Join(Split(s, c), c) == s
  {
    if s != [] {
      var rest := Split(s[1..], c);
      SplitJoin(s[1..], c);
      if s[0] == c {
        assert Split(s, c)[1..] == rest;
      } else {
        var r := Split(s, c);
        assert r[0] == [s[0]] + rest[0];
        if |rest| > 1 {
          assert r[1..] == rest[1..];
        }
      }
      assert s == [s[0]] + s[1..];
    }
  }

  lemma {:induction false} SplitWithoutSeparator(a: string, c: char)
    requires c !in a
    ensures Split(a, c) == [a]
  {
    if a != [] {
      SplitWithoutSeparator(a[1..], c);
      assert [a[0]] + a[1..] == a;
    }
  }

  lemma {:induction false} SplitAtFirstSeparator(a: string, c: char, b: string)
    requires c !in a
    ensures Split(a + [c] + b, c) == [a] + Split(b, c)
  {
    var s := a + [c] + b;
    if a == [] {
      assert s[1..] == b;
    } else {
      assert s[1..] == a[1..] + [c] + b;
      SplitAtFirstSeparator(a[1..], c, b);
      assert [a[0]] + a[1..] == a;
    }
  }

  /** `Number(s)` for the strings a date splits into: surrounding whitespace is ignored, the
      empty string is 0, a run of decimal digits is its value, and anything else is NaN
      (None). */
  function ToNumber(s: string): Option<int> {
    var t := Trim(s);
    if t == [] then Some(0)
    else if AllDigits(t) then Some(DigitsValue(t))
    else None
  }

  /** The `k`-th part of a split, as `Number` sees it: a missing part is `undefined`, NaN. */
  function NumberAt(parts: seq<string>, k: nat): Option<int> {
    if k < |parts| then ToNumber(parts[k]) else None
  }

  /** `const [year, month, day] = s.split('-').map(Number)`: the three numbers, or None when
      any of them is NaN (the Date built from them is then invalid). */
  function ParseDateFields(s: string): Option<CalDate> {
    var parts := Split(s, '-');
    var y := NumberAt(parts, 0);
    var m := NumberAt(parts, 1);
    var d := NumberAt(parts, 2);
    if y.Some? && m.Some? && d.Some? then Some(CalDate(y.value, m.value, d.value)) else None
  }

  lemma DigitsAreTheirNumber(s: string)
    requires s != [] && AllDigits(s)
    ensures ToNumber(s) == Some(DigitsValue(s))
  {
    assert !IsTrimmable(s[0]) && !IsTrimmable(s[|s| - 1]);
    assert TrimStart(s) == s;
    assert TrimEnd(s) == s;
  }

  lemma AllDigitsHasNoDash(s: string)
    requires AllDigits(s)
    ensures '-' !in s
  {
  }

  lemma SplitThree(a: string, b: string, c: string)
    requires AllDigits(a) && AllDigits(b) && AllDigits(c)
    ensures Split(a + "-" + b + "-" + c, '-') == [a, b, c]
  {
    AllDigitsHasNoDash(a);
    AllDigitsHasNoDash(b);
    AllDigitsHasNoDash(c);
    SplitWithoutSeparator(c, '-');
    SplitAtFirstSeparator(b, '-', c);
    assert a + "-" + b + "-" + c == a + ['-'] + (b + ['-'] + c);
    SplitAtFirstSeparator(a, '-', b + ['-'] + c);
  }

  /** Three digit strings joined by '-' read back as their three values. */
  lemma ParseJoined(a: string, b: string, c: string)
    requires a != [] && b != [] && c != [] && AllDigits(a) && AllDigits(b) && AllDigits(c)
    ensures ParseDateFields(a + "-" + b + "-" + c)
            == Some(CalDate(DigitsValue(a), DigitsValue(b), DigitsValue(c)))
  {
    SplitThree(a, b, c);
    DigitsAreTheirNumber(a);
    DigitsAreTheirNumber(b);
    DigitsAreTheirNumber(c);
    ParseThreeParts(a + "-" + b + "-" + c, [a, b, c]);
  }

  /** A string splitting into three parts `Number` reads reads as those three numbers. */
  lemma ParseThreeParts(s: string, parts: seq<string>)
    requires Split(s, '-') == parts && |parts| == 3
    requires ToNumber(parts[0]).Some? && ToNumber(parts[1]).Some? && ToNumber(parts[2]).Some?
    ensures ParseDateFields(s)
            == Some(CalDate(ToNumber(parts[0]).value, ToNumber(parts[1]).value, ToNumber(parts[2]).value))
  {
  }

  /** Reading back what `_getLocalISODate` wrote gives the same (year, month, day), for every
      date of a non-negative year. */
  lemma LocalISODateRoundTrip(d: CalDate)
    requires Valid(d) && d.year >= 0
    ensures ParseDateFields(LocalISODate(d)) == Some(d)
  {
    ZeroPadKeepsValue(DecimalString(d.month), 2);
    ZeroPadKeepsValue(DecimalString(d.day), 2);
    ParseJoined(DecimalString(d.year), PadStart(DecimalString(d.month), 2, '0'),
                PadStart(DecimalString(d.day), 2, '0'));
  }

  /** Reading back the date part of `toISOString()` gives the same (year, month, day), for
      every date of a four-digit year. */
  lemma UtcISODateRoundTrip(d: CalDate)
    requires Valid(d) && 0 <= d.year <= 9999
    ensures ParseDateFields(UtcISODate(d)) == Some(d)
  {
    var y := PadStart(DecimalString(d.year), 4, '0');
    var m := PadStart(DecimalString(d.month), 2, '0');
    var dd := PadStart(DecimalString(d.day), 2, '0');
    ZeroPadKeepsValue(DecimalString(d.year), 4);
    ZeroPadKeepsValue(DecimalString(d.month), 2);
    ZeroPadKeepsValue(DecimalString(d.day), 2);
    assert UtcISODate(d) == y + "-" + m + "-" + dd;
    ParseJoined(y, m, dd);
  }
}
