// Millisecond formatting for display and the inverse parser used when times
// are typed in, with the JavaScript string primitives they rely on.

module Format {

  datatype Option<T> = None | Some(value: T)

  // ---------------------------------------------------------------------------
  // Decimal digits

  predicate IsDigit(c: char) {
    '0' <= c <= '9'
  }

  predicate Digits(s: string) {
    forall i :: 0 <= i < |s| ==> IsDigit(s[i])
  }

  function DigitChar(d: nat): (c: char)
    requires d < 10
    ensures IsDigit(c) && c as int - '0' as int == d
  {
    (d + '0' as int) as char
  }

  /** The number a digit string denotes; leading zeros are allowed. */
  function DigitsValue(s: string): nat
    requires Digits(s)
    decreases |s|
  {
    if s == [] then 0
    else DigitsValue(s[..|s| - 1]) * 10 + (s[|s| - 1] as int - '0' as int)
  }

  function Pow10(k: nat): nat {
    if k == 0 then 1 else 10 * Pow10(k - 1)
  }

  /** `String(n)` for a non-negative integer: its decimal digits, without
      leading zeros, whose value is n. */
  function NatToString(n: nat): (s: string)
    ensures |s| >= 1 && Digits(s) && DigitsValue(s) == n
    ensures s[0] == '0' ==> n == 0
    decreases n
  {
    if n < 10 then [DigitChar(n)]
    else
      var p := NatToString(n / 10);
      var s := p + [DigitChar(n % 10)];
      assert s[..|s| - 1] == p;
      s
  }

  lemma {:induction false} NatToStringLength(n: nat, k: nat)
    requires k >= 1 && n < Pow10(k)
    ensures |NatToString(n)| <= k
    decreases k
  {
    if n >= 10 {
      assert k >= 2;
      NatToStringLength(n / 10, k - 1);
    }
  }

  // ---------------------------------------------------------------------------
  // JavaScript string primitives

  /** `s.padStart(n, c)` with a one-character pad. */
  function PadStart(s: string, n: nat, c: char): (r: string)
    ensures |r| == if |s| >= n then |s| else n
    ensures r[|r| - |s|..] == s
    ensures forall i :: 0 <= i < |r| - |s| ==> r[i] == c
  {
    if |s| >= n then s else seq(n - |s|, _ => c) + s
  }

  /** `s.padEnd(n, c)` with a one-character pad. */
  function PadEnd(s: string, n: nat, c: char): (r: string)
    ensures |r| == if |s| >= n then |s| else n
    ensures r[..|s|] == s
    ensures forall i :: |s| <= i < |r| ==> r[i] == c
  {
    if |s| >= n then s else s + seq(n - |s|, _ => c)
  }

  /** `s.split(c)` with a one-character separator: the maximal pieces between
      separators, one more piece than there are separators. */
  function SplitOn(s: string, c: char): (parts: seq<string>)
    ensures |parts| >= 1
    ensures forall i :: 0 <= i < |parts| ==> c !in parts[i]
    decreases |s|
  {
    if s == [] then [[]]
    else
      var rest := SplitOn(s[1..], c);
      if s[0] == c then [[]] + rest else [[s[0]] + rest[0]] + rest[1..]
  }

  /** The separator inserted between the pieces. */
  function Join(parts: seq<string>, c: char): string
    requires |parts| >= 1
    decreases |parts|
  {
    if |parts| == 1 then parts[0] else parts[0] + [c] + Join(parts[1..], c)
  }

  lemma {:induction false} SplitOnJoin(s: string, c: char)
    ensures Join(SplitOn(s, c), c) == s
    decreases |s|
  {
    if s != [] {
      SplitOnJoin(s[1..], c);
      var rest := SplitOn(s[1..], c);
      if s[0] != c {
        if |rest| > 1 {
          assert ([[s[0]] + rest[0]] + rest[1..])[1..] == rest[1..];
        }
      } else {
        assert ([[]] + rest)[1..] == rest;
      }
    }
  }

  lemma {:induction false} SplitOnPlain(a: string, c: char)
    requires c !in a
    ensures SplitOn(a, c) == [a]
    decreases |a|
  {
    if a != [] {
      SplitOnPlain(a[1..], c);
      assert [a[0]] + a[1..] == a;
    }
  }

  lemma {:induction false} SplitOnFirst(a: string, b: string, c: char)
    requires c !in a
    ensures SplitOn(a + [c] + b, c) == [a] + SplitOn(b, c)
    decreases |a|
  {
    var s := a + [c] + b;
    if a == [] {
      assert s[1..] == b;
    } else {
      assert s[1..] == a[1..] + [c] + b;
      SplitOnFirst(a[1..], b, c);
      assert [a[0]] + a[1..] == a;
    }
  }

  /** The characters `String.prototype.trim` and `parseInt` skip: the
      ECMAScript WhiteSpace and LineTerminator code points. */
  predicate IsJsWhitespace(c: char) {
    c == '\t' || c == '\n' || c == '\U{000B}' || c == '\U{000C}' || c == '\r' || c == ' ' ||
    c == '\U{00A0}' || c == '\U{1680}' || ('\U{2000}' <= c <= '\U{200A}') ||
    c == '\U{2028}' || c == '\U{2029}' || c == '\U{202F}' || c == '\U{205F}' ||
    c == '\U{3000}' || c == '\U{FEFF}'
  }

  function TrimStart(s: string): (r: string)
    ensures |r| <= |s| && r == s[|s| - |r|..]
    ensures r == [] || !IsJsWhitespace(r[0])
    ensures forall i :: 0 <= i < |s| - |r| ==> IsJsWhitespace(s[i])
    decreases |s|
  {
    if s != [] && IsJsWhitespace(s[0]) then TrimStart(s[1..]) else s
  }

  function TrimEnd(s: string): (r: string)
    ensures |r| <= |s| && r == s[..|r|]
    ensures r == [] || !IsJsWhitespace(r[|r| - 1])
    ensures forall i :: |r| <= i < |s| ==> IsJsWhitespace(s[i])
    decreases |s|
  {
    if s != [] && IsJsWhitespace(s[|s| - 1]) then TrimEnd(s[..|s| - 1]) else s
  }

  /** `s.trim()`: a part of the input with no whitespace at either end. */
  function Trim(s: string): (r: string)
    ensures |r| <= |s|
    ensures r == [] || (!IsJsWhitespace(r[0]) && !IsJsWhitespace(r[|r| - 1]))
  {
    TrimEnd(TrimStart(s))
  }

  lemma TrimUntouched(s: string)
    requires s != [] && !IsJsWhitespace(s[0]) && !IsJsWhitespace(s[|s| - 1])
    ensures Trim(s) == s
  {
  }

  /** The longest prefix of decimal digits. */
  function LeadingDigits(s: string): (d: string)
    ensures |d| <= |s| && Digits(d) && d == s[..|d|]
    ensures |d| < |s| ==> !IsDigit(s[|d|])
    decreases |s|
  {
    if s != [] && IsDigit(s[0]) then [s[0]] + LeadingDigits(s[1..]) else []
  }

  /** `parseInt(s, 10)` on integers: leading whitespace is skipped, an optional
      sign is read, then the leading decimal digits; the rest is ignored.
      None stands for NaN (no digit after the optional sign). */
  function ParseInt(s: string): (r: Option<int>)
    ensures r.Some? && r.value < 0 ==> TrimStart(s) != [] && TrimStart(s)[0] == '-'
  {
    ParseSigned(TrimStart(s))
  }

  /** The sign and digits `parseInt` reads once whitespace is skipped. */
  function ParseSigned(t: string): (r: Option<int>)
    ensures r.Some? && r.value < 0 ==> t != [] && t[0] == '-'
  {
    if t != [] && (t[0] == '-' || t[0] == '+') then
      var d := LeadingDigits(t[1..]);
      var v: int := if d == [] then 0 else DigitsValue(d);
      if d == [] then None else if t[0] == '-' then Some(-v) else Some(v)
    else
      var d := LeadingDigits(t);
      if d == [] then None else Some(DigitsValue(d))
  }

  lemma LeadingDigitsOfDigits(d: string)
    requires Digits(d)
    ensures LeadingDigits(d) == d
  {
    assert |LeadingDigits(d)| == |d|;
  }

  /** A non-empty digit string parses to its value, also after a '+' sign. */
  lemma ParseIntDigits(d: string)
    requires d != [] && Digits(d)
    ensures ParseInt(d) == Some(DigitsValue(d))
    ensures ParseInt("+" + d) == Some(DigitsValue(d))
  {
    LeadingDigitsOfDigits(d);
    assert IsDigit(d[0]);
    assert !IsJsWhitespace(d[0]);
    assert TrimStart(d) == d;
    var p := "+" + d;
    assert p[0] == '+' && !IsJsWhitespace(p[0]);
    assert TrimStart(p) == p;
    assert p[1..] == d;
  }

  lemma {:induction false} ZerosValue(z: string)
    requires forall i :: 0 <= i < |z| ==> z[i] == '0'
    ensures Digits(z) && DigitsValue(z) == 0
    decreases |z|
  {
    if z != [] {
      ZerosValue(z[..|z| - 1]);
    }
  }

  /** Leading zeros do not change a digit string's value. */
  lemma {:induction false} LeadingZerosValue(z: string, s: string)
    requires forall i :: 0 <= i < |z| ==> z[i] == '0'
    requires Digits(s)
    ensures Digits(z + s) && DigitsValue(z + s) == DigitsValue(s)
    decreases |s|
  {
    if s == [] {
      assert z + s == z;
      ZerosValue(z);
    } else {
      var p := s[..|s| - 1];
      LeadingZerosValue(z, p);
      assert (z + s)[..|z + s| - 1] == z + p;
    }
  }

  /** Zero-padding a digit string on the left keeps its value. */
  lemma PadStartValue(s: string, n: nat)
    requires Digits(s)
    ensures Digits(PadStart(s, n, '0')) && DigitsValue(PadStart(s, n, '0')) == DigitsValue(s)
  {
    if |s| < n {
      LeadingZerosValue(seq(n - |s|, _ => '0'), s);
    }
  }

  /** `String(v).padStart(w, '0')` for v < 10^w: exactly w digits denoting v. */
  function Padded(v: nat, w: nat): (r: string)
    requires w >= 1 && v < Pow10(w)
    ensures |r| == w && Digits(r) && DigitsValue(r) == v
  {
    NatToStringLength(v, w);
    PadStartValue(NatToString(v), w);
    PadStart(NatToString(v), w, '0')
  }

  // ---------------------------------------------------------------------------
  // Formatting

  /** Milliseconds as "H:MM:SS.mmm" with hours, "M:SS.mmm" with minutes, and
      "S.mmm" otherwise; negative inputs show as zero. */
  function FormatTime(ms: int): string {
    var m := if ms < 0 then 0 else ms;
    var totalSeconds := m / 1000;
    var milliseconds := m % 1000;
    var hours := totalSeconds / 3600;
    var minutes := (totalSeconds % 3600) / 60;
    var seconds := totalSeconds % 60;
    var msStr := Padded(milliseconds, 3);
    var secStr := Padded(seconds, 2);
    if hours > 0 then
      NatToString(hours) + ":" + Padded(minutes, 2) + ":" + secStr + "." + msStr
    else if minutes > 0 then
      NatToString(minutes) + ":" + secStr + "." + msStr
    else
      NatToString(seconds) + "." + msStr
  }

  /** A signed delta: '-' for a negative value, '+' otherwise, then "M:SS.cc"
      with minutes or "S.cc" without; the hundredths are truncated. */
  function FormatDelta(ms: int): string {
    var sign := if ms < 0 then "-" else "+";
    sign + DeltaMagnitude(Magnitude(ms))
  }

  /** The absolute value of a delta. */
  function Magnitude(ms: int): (a: nat)
    ensures a == ms || a == -ms
  {
    if ms < 0 then -ms else ms
  }

  /** The text after the sign: the magnitude's minutes (when there are any),
      seconds and truncated hundredths. */
  function DeltaMagnitude(abs: nat): string {
    var totalSeconds := abs / 1000;
    var centis := (abs % 1000) / 10;
    var minutes := totalSeconds / 60;
    var seconds := totalSeconds % 60;
    var csStr := Padded(centis, 2);
    if minutes > 0 then
      NatToString(minutes) + ":" + Padded(seconds, 2) + "." + csStr
    else
      NatToString(seconds) + "." + csStr
  }

  /** A split cell: "-" for a skipped (zero) split, otherwise the time. */
  function FormatSplitTime(ms: int): (r: string)
    ensures ms == 0 <==> r == "-"
    ensures ms != 0 ==> r == FormatTime(ms)
  {
    if ms == 0 then "-" else FormatTime(ms)
  }

  /** A run total: "-" when not positive, otherwise always with a minutes
      field, "H:MM:SS.mmm" or "M:SS.mmm". */
  function FormatRunTime(ms: int): string {
    if ms <= 0 then "-"
    else
      var totalSeconds := ms / 1000;
      var milliseconds := ms % 1000;
      var hours := totalSeconds / 3600;
      var minutes := (totalSeconds % 3600) / 60;
      var seconds := totalSeconds % 60;
      var msStr := Padded(milliseconds, 3);
      var secStr := Padded(seconds, 2);
      if hours > 0 then
        NatToString(hours) + ":" + Padded(minutes, 2) + ":" + secStr + "." + msStr
      else
        NatToString(minutes) + ":" + secStr + "." + msStr
  }

  // ---------------------------------------------------------------------------
  // Parsing

  /** The fraction after the '.' as typed: one to three characters,
      right-padded with zeros to milliseconds and read with `parseInt`. */
  function FractionAsWritten(frac: string): Option<int> {
    if |frac| == 0 || |frac| > 3 then None
    else ParseInt(PadEnd(frac, 3, '0'))
  }

  /** The milliseconds a digit fraction stands for: it is right-padded with
      zeros to three digits. */
  function FractionValue(frac: string): nat
    requires 1 <= |frac| <= 3 && Digits(frac)
  {
    PadEndDigits(frac);
    DigitsValue(PadEnd(frac, 3, '0'))
  }

  /** A fraction of k digits stands for its value times 10^(3-k). */
  lemma FractionValueScale(frac: string)
    requires 1 <= |frac| <= 3 && Digits(frac)
    ensures FractionValue(frac) == DigitsValue(frac) * Pow10(3 - |frac|)
  {
    var p := PadEnd(frac, 3, '0');
    PadEndDigits(frac);
    if |frac| == 1 {
      assert p == frac + "0" + "0";
      assert (frac + "0" + "0")[..2] == frac + "0";
      assert (frac + "0")[..1] == frac;
    } else if |frac| == 2 {
      assert p == frac + "0";
      assert (frac + "0")[..2] == frac;
    } else {
      assert p == frac;
    }
  }

  /** A three-digit fraction is its own value in milliseconds. */
  lemma FullFraction(frac: string)
    requires |frac| == 3 && Digits(frac)
    ensures FractionValue(frac) == DigitsValue(frac)
  {
    assert PadEnd(frac, 3, '0') == frac;
  }

  /** The same fraction restricted to digits, so it can never be negative. */
  function FractionDigitsOnly(frac: string): (r: Option<int>)
    ensures r.Some? ==> 0 <= r.value < 1000
  {
    if |frac| == 0 || |frac| > 3 || !Digits(frac) then None
    else
      PadEndDigits(frac);
      Some(DigitsValue(PadEnd(frac, 3, '0')))
  }

  lemma PadEndDigits(frac: string)
    requires 1 <= |frac| <= 3 && Digits(frac)
    ensures Digits(PadEnd(frac, 3, '0')) && DigitsValue(PadEnd(frac, 3, '0')) < 1000
  {
    var p := PadEnd(frac, 3, '0');
    assert Digits(p);
    DigitsValueBound(p);
    assert Pow10(3) == 1000;
  }

  lemma {:induction false} DigitsValueBound(s: string)
    requires Digits(s)
    ensures DigitsValue(s) < Pow10(|s|)
    decreases |s|
  {
    if s != [] {
      DigitsValueBound(s[..|s| - 1]);
    }
  }

  /** The seconds part "S" or "S.f": `parseInt` of the text before the '.',
      which must be a non-negative number, and the fraction in milliseconds. */
  function SecondsPart(secPart: string, strictFraction: bool): Option<(int, int)> {
    var dotParts := SplitOn(secPart, '.');
    if |dotParts| > 2 then None
    else
      var seconds := ParseInt(dotParts[0]);
      if seconds.None? || seconds.value < 0 then None
      else if |dotParts| == 1 then Some((seconds.value, 0))
      else
        var ms := if strictFraction then FractionDigitsOnly(dotParts[1]) else FractionAsWritten(dotParts[1]);
        if ms.None? then None else Some((seconds.value, ms.value))
  }

  /** The parser with either treatment of the fraction: after trimming, ""
      and "-" mean 0; otherwise one to three ':'-separated fields
      hours:minutes:seconds, minutes:seconds or seconds. */
  function ParseTimeWith(input: string, strictFraction: bool): Option<int> {
    var s := Trim(input);
    if s == "" || s == "-" then Some(0)
    else
      var parts := SplitOn(s, ':');
      if |parts| > 3 then None else ParseFields(parts, strictFraction)
  }

  /** hours:minutes:seconds, minutes:seconds or seconds; hours and minutes
      must be non-negative numbers. */
  function ParseFields(parts: seq<string>, strictFraction: bool): Option<int>
    requires 1 <= |parts| <= 3
  {
    var hours := if |parts| == 3 then ParseInt(parts[0]) else Some(0);
    var minutes := if |parts| == 3 then ParseInt(parts[1])
                   else if |parts| == 2 then ParseInt(parts[0]) else Some(0);
    var secPart := parts[|parts| - 1];
    var sp := SecondsPart(secPart, strictFraction);
    if hours.None? || minutes.None? || hours.value < 0 || minutes.value < 0 || sp.None? then None
    else Some(TotalMS(hours.value, minutes.value, sp.value.0, sp.value.1))
  }

  /** The millisecond total of the clock fields. */
  function TotalMS(hours: int, minutes: int, seconds: int, ms: int): int {
    (hours * 3600 + minutes * 60 + seconds) * 1000 + ms
  }

  /** `parseTime` as written: the fraction goes to `parseInt` unchecked. */
  function ParseTimeAsWritten(input: string): Option<int> {
    ParseTimeWith(input, false)
  }

  /** `parseTime` with the fraction required to be digits. */
  function ParseTime(input: string): Option<int> {
    ParseTimeWith(input, true)
  }

  // ---------------------------------------------------------------------------
  // Properties of the formatters

  /** Negative times display as zero. */
  lemma FormatTimeClampsNegatives(ms: int)
    requires ms < 0
    ensures FormatTime(ms) == FormatTime(0) == "0.000"
  {
    assert Padded(0, 3) == "000" by {
      var r := Padded(0, 3);
      assert DigitsValue(r) == 0;
      ZeroDigitsAreZeros(r);
    }
    assert NatToString(0) == "0";
  }

  lemma {:induction false} ZeroDigitsAreZeros(r: string)
    requires Digits(r) && DigitsValue(r) == 0
    ensures forall i :: 0 <= i < |r| ==> r[i] == '0'
    decreases |r|
  {
    if r != [] {
      ZeroDigitsAreZeros(r[..|r| - 1]);
      assert forall i :: 0 <= i < |r| - 1 ==> r[i] == r[..|r| - 1][i];
    }
  }

  /** A digit field contains neither separator. */
  lemma DigitsHaveNoSeparators(d: string)
    requires Digits(d)
    ensures ':' !in d && '.' !in d
  {
    forall i | 0 <= i < |d|
      ensures d[i] != ':' && d[i] != '.'
    {
      assert IsDigit(d[i]);
    }
  }

  /** The seconds part "S.f" of formatted text parses to S and the
      fraction's value. */
  lemma ParseSecondsText(sec: string, frac: string, strict: bool)
    requires sec != [] && Digits(sec) && 1 <= |frac| <= 3 && Digits(frac)
    ensures SecondsPart(sec + "." + frac, strict) == Some((DigitsValue(sec), FractionValue(frac)))
  {
    SplitAtDot(sec, frac);
    ParseIntDigits(sec);
    DigitFraction(frac);
  }

  lemma SplitAtDot(sec: string, frac: string)
    requires Digits(sec) && Digits(frac)
    ensures SplitOn(sec + "." + frac, '.') == [sec, frac]
  {
    DigitsHaveNoSeparators(sec);
    DigitsHaveNoSeparators(frac);
    SplitOnFirst(sec, frac, '.');
    SplitOnPlain(frac, '.');
    assert sec + "." + frac == sec + ['.'] + frac;
  }

  /** A digit fraction is read as its padded value under either rule. */
  lemma DigitFraction(frac: string)
    requires 1 <= |frac| <= 3 && Digits(frac)
    ensures FractionDigitsOnly(frac) == Some(FractionValue(frac))
    ensures FractionAsWritten(frac) == Some(FractionValue(frac))
  {
    PadEndDigits(frac);
    ParseIntDigits(PadEnd(frac, 3, '0'));
  }

  lemma DigitIsPlain(c: char)
    requires IsDigit(c)
    ensures !IsJsWhitespace(c) && c != '-'
  {
  }

  /** Formatted text is left alone by trimming and is not the bare "-". */
  lemma PlainText(text: string, last: string)
    requires text != [] && IsDigit(text[0])
    requires last != [] && Digits(last) && |last| <= |text| && text[|text| - |last|..] == last
    ensures Trim(text) == text && text != "" && text != "-"
  {
    DigitIsPlain(text[0]);
    assert text[|text| - 1] == text[|text| - |last|..][|last| - 1];
    DigitIsPlain(last[|last| - 1]);
    TrimUntouched(text);
  }

  /** Trimmed text that is not blank or "-" is read field by field. */
  lemma ParseTimeOfFields(text: string, parts: seq<string>, strict: bool)
    requires Trim(text) == text && text != "" && text != "-"
    requires SplitOn(text, ':') == parts && |parts| <= 3
    ensures ParseTimeWith(text, strict) == ParseFields(parts, strict)
  {
  }

  lemma SplitSecondsOnly(sec: string, frac: string)
    requires Digits(sec) && Digits(frac)
    ensures SplitOn(sec + "." + frac, ':') == [sec + "." + frac]
  {
    DigitsHaveNoSeparators(sec);
    DigitsHaveNoSeparators(frac);
    assert ':' !in sec + "." + frac;
    SplitOnPlain(sec + "." + frac, ':');
  }

  lemma SplitMinutes(m: string, sec: string, frac: string)
    requires Digits(m) && Digits(sec) && Digits(frac)
    ensures SplitOn(m + ":" + sec + "." + frac, ':') == [m, sec + "." + frac]
  {
    var tail := sec + "." + frac;
    DigitsHaveNoSeparators(m);
    SplitSecondsOnly(sec, frac);
    assert m + ":" + sec + "." + frac == m + [':'] + tail;
    SplitOnFirst(m, tail, ':');
  }

  lemma SplitHours(h: string, m: string, sec: string, frac: string)
    requires Digits(h) && Digits(m) && Digits(sec) && Digits(frac)
    ensures SplitOn(h + ":" + m + ":" + sec + "." + frac, ':') == [h, m, sec + "." + frac]
  {
    var rest := m + ":" + sec + "." + frac;
    DigitsHaveNoSeparators(h);
    SplitMinutes(m, sec, frac);
    assert h + ":" + m + ":" + sec + "." + frac == h + [':'] + rest;
    SplitOnFirst(h, rest, ':');
  }

  lemma FieldsSecondsOnly(sec: string, frac: string, strict: bool)
    requires sec != [] && Digits(sec) && 1 <= |frac| <= 3 && Digits(frac)
    ensures ParseFields([sec + "." + frac], strict) ==
      Some(TotalMS(0, 0, DigitsValue(sec), FractionValue(frac)))
  {
    ParseSecondsText(sec, frac, strict);
  }

  lemma FieldsMinutes(m: string, sec: string, frac: string, strict: bool)
    requires m != [] && Digits(m) && sec != [] && Digits(sec) && 1 <= |frac| <= 3 && Digits(frac)
    ensures ParseFields([m, sec + "." + frac], strict) ==
      Some(TotalMS(0, DigitsValue(m), DigitsValue(sec), FractionValue(frac)))
  {
    ParseIntDigits(m);
    ParseSecondsText(sec, frac, strict);
  }

  lemma FieldsHours(h: string, m: string, sec: string, frac: string, strict: bool)
    requires h != [] && Digits(h) && m != [] && Digits(m)
    requires sec != [] && Digits(sec) && 1 <= |frac| <= 3 && Digits(frac)
    ensures ParseFields([h, m, sec + "." + frac], strict) ==
      Some(TotalMS(DigitsValue(h), DigitsValue(m), DigitsValue(sec), FractionValue(frac)))
  {
    ParseIntDigits(h);
    ParseIntDigits(m);
    ParseSecondsText(sec, frac, strict);
  }

  /** "S.fff" parses to its value. */
  lemma ParseSecondsOnlyText(sec: string, frac: string, strict: bool)
    requires sec != [] && Digits(sec) && 1 <= |frac| <= 3 && Digits(frac)
    ensures ParseTimeWith(sec + "." + frac, strict) == Some(TotalMS(0, 0, DigitsValue(sec), FractionValue(frac)))
  {
    var text := sec + "." + frac;
    PlainText(text, frac);
    SplitSecondsOnly(sec, frac);
    ParseTimeOfFields(text, [text], strict);
    FieldsSecondsOnly(sec, frac, strict);
  }

  /** "M:SS.fff" parses to its value. */
  lemma ParseMinutesText(m: string, sec: string, frac: string, strict: bool)
    requires m != [] && Digits(m) && sec != [] && Digits(sec) && 1 <= |frac| <= 3 && Digits(frac)
    ensures ParseTimeWith(m + ":" + sec + "." + frac, strict) ==
      Some(TotalMS(0, DigitsValue(m), DigitsValue(sec), FractionValue(frac)))
  {
    var text := m + ":" + sec + "." + frac;
    PlainText(text, frac);
    SplitMinutes(m, sec, frac);
    ParseTimeOfFields(text, [m, sec + "." + frac], strict);
    FieldsMinutes(m, sec, frac, strict);
  }

  /** "H:MM:SS.fff" parses to its value. */
  lemma ParseHoursText(h: string, m: string, sec: string, frac: string, strict: bool)
    requires h != [] && Digits(h) && m != [] && Digits(m)
    requires sec != [] && Digits(sec) && 1 <= |frac| <= 3 && Digits(frac)
    ensures ParseTimeWith(h + ":" + m + ":" + sec + "." + frac, strict) ==
      Some(TotalMS(DigitsValue(h), DigitsValue(m), DigitsValue(sec), FractionValue(frac)))
  {
    var text := h + ":" + m + ":" + sec + "." + frac;
    PlainText(text, frac);
    SplitHours(h, m, sec, frac);
    ParseTimeOfFields(text, [h, m, sec + "." + frac], strict);
    FieldsHours(h, m, sec, frac, strict);
  }

  /** The clock fields of a time, named once for the layout lemmas. */
  function Hours(ms: nat): nat { ms / 1000 / 3600 }
  function Minutes(ms: nat): nat { (ms / 1000 % 3600) / 60 }
  function Seconds(ms: nat): nat { ms / 1000 % 60 }

  lemma FormatTimeText(ms: nat)
    ensures Hours(ms) > 0 ==> (FormatTime(ms) ==
      NatToString(Hours(ms)) + ":" + Padded(Minutes(ms), 2) + ":" + Padded(Seconds(ms), 2) + "." + Padded(ms % 1000, 3))
    ensures Hours(ms) == 0 && Minutes(ms) > 0 ==> (FormatTime(ms) ==
      NatToString(Minutes(ms)) + ":" + Padded(Seconds(ms), 2) + "." + Padded(ms % 1000, 3))
    ensures Hours(ms) == 0 && Minutes(ms) == 0 ==> (FormatTime(ms) ==
      NatToString(Seconds(ms)) + "." + Padded(ms % 1000, 3))
  {
  }

  lemma FormatRunTimeText(ms: nat)
    requires ms > 0
    ensures Hours(ms) > 0 ==> (FormatRunTime(ms) ==
      NatToString(Hours(ms)) + ":" + Padded(Minutes(ms), 2) + ":" + Padded(Seconds(ms), 2) + "." + Padded(ms % 1000, 3))
    ensures Hours(ms) == 0 ==> (FormatRunTime(ms) ==
      NatToString(Minutes(ms)) + ":" + Padded(Seconds(ms), 2) + "." + Padded(ms % 1000, 3))
  {
  }

  /** The clock fields of a time recombine to it. */
  lemma ClockTotal(ms: nat)
    ensures Minutes(ms) < 60 && Seconds(ms) < 60
    ensures ms == TotalMS(Hours(ms), Minutes(ms), Seconds(ms), ms % 1000)
    ensures Hours(ms) > 0 <==> ms >= 3600000
    ensures Hours(ms) > 0 || Minutes(ms) > 0 <==> ms >= 60000
  {
    var t := ms / 1000;
    var r := t % 3600;
    var h := t / 3600;
    assert t == 3600 * h + r;
    assert r == 60 * (r / 60) + r % 60;
    assert t == 60 * (60 * h + r / 60) + r % 60;
    assert t % 60 == r % 60;
    assert ms == 1000 * t + ms % 1000;
  }

  lemma ParseHoursLayout(ms: nat, strict: bool)
    requires Hours(ms) > 0
    ensures ParseTimeWith(NatToString(Hours(ms)) + ":" + Padded(Minutes(ms), 2) + ":" +
                          Padded(Seconds(ms), 2) + "." + Padded(ms % 1000, 3), strict) == Some(ms)
  {
    ClockTotal(ms);
    FullFraction(Padded(ms % 1000, 3));
    ParseHoursText(NatToString(Hours(ms)), Padded(Minutes(ms), 2), Padded(Seconds(ms), 2),
                   Padded(ms % 1000, 3), strict);
  }

  lemma ParseMinutesLayout(ms: nat, strict: bool)
    requires Hours(ms) == 0
    ensures ParseTimeWith(NatToString(Minutes(ms)) + ":" + Padded(Seconds(ms), 2) + "." +
                          Padded(ms % 1000, 3), strict) == Some(ms)
  {
    ClockTotal(ms);
    FullFraction(Padded(ms % 1000, 3));
    ParseMinutesText(NatToString(Minutes(ms)), Padded(Seconds(ms), 2), Padded(ms % 1000, 3), strict);
  }

  lemma ParseSecondsLayout(ms: nat, strict: bool)
    requires Hours(ms) == 0 && Minutes(ms) == 0
    ensures ParseTimeWith(NatToString(Seconds(ms)) + "." + Padded(ms % 1000, 3), strict) == Some(ms)
  {
    ClockTotal(ms);
    FullFraction(Padded(ms % 1000, 3));
    ParseSecondsOnlyText(NatToString(Seconds(ms)), Padded(ms % 1000, 3), strict);
  }

  /** Round trip of the clock display: every non-negative time is read back
      exactly, under either fraction rule. */
  lemma ParseFormatTime(ms: int, strict: bool)
    requires ms >= 0
    ensures ParseTimeWith(FormatTime(ms), strict) == Some(ms)
  {
    FormatTimeText(ms);
    if Hours(ms) > 0 {
      ParseHoursLayout(ms, strict);
    } else if Minutes(ms) > 0 {
      ParseMinutesLayout(ms, strict);
    } else {
      ParseSecondsLayout(ms, strict);
    }
  }

  /** Round trip of the run-total display for positive times; "-" reads as 0. */
  lemma ParseFormatRunTime(ms: int, strict: bool)
    ensures ParseTimeWith(FormatRunTime(ms), strict) == Some(if ms > 0 then ms else 0)
  {
    if ms > 0 {
      FormatRunTimeText(ms);
      if Hours(ms) > 0 {
        ParseHoursLayout(ms, strict);
      } else {
        ParseMinutesLayout(ms, strict);
      }
    } else {
      assert Trim("-") == "-";
    }
  }

  /** Round trip of a split cell: a skipped split "-" reads back as 0. */
  lemma ParseFormatSplitTime(ms: int, strict: bool)
    requires ms >= 0
    ensures ParseTimeWith(FormatSplitTime(ms), strict) == Some(ms)
  {
    if ms == 0 {
      assert Trim("-") == "-";
    } else {
      ParseFormatTime(ms, strict);
    }
  }

  // ---------------------------------------------------------------------------
  // Layout of the formatted text

  /** "S.mmm": digits, a '.', then exactly three digits; with `padded` the
      seconds take exactly two digits. */
  predicate SecondsField(p: string, padded: bool) {
    |p| >= 5 && p[|p| - 4] == '.' && Digits(p[..|p| - 4]) && Digits(p[|p| - 3..]) &&
    (padded ==> |p| == 6)
  }

  lemma SecondsFieldOf(sec: string, frac: string)
    requires sec != [] && Digits(sec) && |frac| == 3 && Digits(frac)
    ensures SecondsField(sec + "." + frac, |sec| == 2)
  {
    var p := sec + "." + frac;
    assert p[..|p| - 4] == sec;
    assert p[|p| - 3..] == frac;
  }

  /** The clock display has one ':'-separated field per unit present: hours
      from one hour on, minutes from one minute on. Fields after the first are
      two digits wide, the first is not zero-padded, and the text always ends
      in three millisecond digits. */
  lemma FormatTimeLayout(ms: int)
    requires ms >= 0
    ensures ClockLayout(FormatTime(ms), if ms >= 3600000 then 3 else if ms >= 60000 then 2 else 1)
  {
    FormatTimeText(ms);
    ClockTotal(ms);
    var msStr := Padded(ms % 1000, 3);
    var secStr := Padded(Seconds(ms), 2);
    if Hours(ms) > 0 {
      HoursLayout(NatToString(Hours(ms)), Padded(Minutes(ms), 2), secStr, msStr);
    } else if Minutes(ms) > 0 {
      MinutesLayout(NatToString(Minutes(ms)), secStr, msStr);
    } else {
      SecondsLayout(NatToString(Seconds(ms)), msStr);
    }
  }

  /** A clock text of `fields` ':'-separated fields: a leading field without
      zero padding when there is more than one, a two-digit middle field when
      there are three, and a seconds field with three millisecond digits,
      whose seconds are two digits wide after a ':'. */
  predicate ClockLayout(t: string, fields: nat) {
    var parts := SplitOn(t, ':');
    |parts| == fields &&
    (|parts| > 1 ==> parts[0] != [] && Digits(parts[0]) && parts[0][0] != '0') &&
    (|parts| == 3 ==> |parts[1]| == 2 && Digits(parts[1])) &&
    SecondsField(parts[|parts| - 1], |parts| > 1)
  }

  lemma HoursLayout(h: string, m: string, sec: string, frac: string)
    requires h != [] && Digits(h) && h[0] != '0'
    requires |m| == 2 && Digits(m) && |sec| == 2 && Digits(sec) && |frac| == 3 && Digits(frac)
    ensures ClockLayout(h + ":" + m + ":" + sec + "." + frac, 3)
  {
    SplitHours(h, m, sec, frac);
    SecondsFieldOf(sec, frac);
  }

  lemma MinutesLayout(m: string, sec: string, frac: string)
    requires m != [] && Digits(m) && m[0] != '0'
    requires |sec| == 2 && Digits(sec) && |frac| == 3 && Digits(frac)
    ensures ClockLayout(m + ":" + sec + "." + frac, 2)
  {
    SplitMinutes(m, sec, frac);
    SecondsFieldOf(sec, frac);
  }

  lemma SecondsLayout(sec: string, frac: string)
    requires sec != [] && Digits(sec) && |frac| == 3 && Digits(frac)
    ensures ClockLayout(sec + "." + frac, 1)
  {
    SplitSecondsOnly(sec, frac);
    SecondsFieldOf(sec, frac);
  }

  /** The run-total display is "-" up to zero; otherwise it always has a
      minutes field, and an hours field from one hour on. */
  lemma FormatRunTimeLayout(ms: int)
    ensures ms <= 0 <==> FormatRunTime(ms) == "-"
    ensures ms > 0 ==>
      var parts := SplitOn(FormatRunTime(ms), ':');
      |parts| == (if ms >= 3600000 then 3 else 2) &&
      parts[0] != [] && Digits(parts[0]) &&
      (|parts| == 3 ==> parts[0][0] != '0' && |parts[1]| == 2 && Digits(parts[1])) &&
      SecondsField(parts[|parts| - 1], true)
  {
    if ms > 0 {
      FormatRunTimeText(ms);
      ClockTotal(ms);
      var msStr := Padded(ms % 1000, 3);
      var secStr := Padded(Seconds(ms), 2);
      assert FormatRunTime(ms)[|FormatRunTime(ms)| - 1] == msStr[2];
      if Hours(ms) > 0 {
        SplitHours(NatToString(Hours(ms)), Padded(Minutes(ms), 2), secStr, msStr);
      } else {
        SplitMinutes(NatToString(Minutes(ms)), secStr, msStr);
      }
      SecondsFieldOf(secStr, msStr);
    }
  }

  // ---------------------------------------------------------------------------
  // Deltas

  function DeltaMinutes(a: nat): nat { a / 1000 / 60 }
  function DeltaSeconds(a: nat): nat { a / 1000 % 60 }
  function Centis(a: nat): nat { a % 1000 / 10 }

  /** The magnitude's text from its fields. */
  lemma DeltaMagnitudeText(a: nat)
    ensures DeltaMinutes(a) > 0 ==> (DeltaMagnitude(a) ==
      NatToString(DeltaMinutes(a)) + ":" + Padded(DeltaSeconds(a), 2) + "." + Padded(Centis(a), 2))
    ensures DeltaMinutes(a) == 0 ==> (DeltaMagnitude(a) ==
      NatToString(DeltaSeconds(a)) + "." + Padded(Centis(a), 2))
  {
  }

  lemma DeltaTotal(a: nat)
    ensures Centis(a) < 100
    ensures TotalMS(0, DeltaMinutes(a), DeltaSeconds(a), Centis(a) * 10) == a - a % 10
    ensures DeltaMinutes(a) > 0 <==> a >= 60000
  {
    var t, r := a / 1000, a % 1000;
    var m, sec, c := DeltaMinutes(a), DeltaSeconds(a), Centis(a);
    assert a == 1000 * t + r;
    assert t == 60 * m + sec;
    assert r == 10 * c + r % 10;
    assert a == 10 * (100 * t + c) + r % 10;
    DivModUnique(a, 10, 100 * t + c, r % 10);
    assert TotalMS(0, m, sec, c * 10) == (m * 60 + sec) * 1000 + c * 10;
    assert (m * 60 + sec) * 1000 == 1000 * t;
  }

  /** Euclidean division is determined by quotient and remainder. */
  lemma DivModUnique(a: int, d: int, q: int, r: int)
    requires d > 0 && a == d * q + r && 0 <= r < d
    ensures a / d == q && a % d == r
  {
    var q0, r0 := a / d, a % d;
    assert a == d * q0 + r0 && 0 <= r0 < d;
    assert d * (q - q0) == r0 - r;
    if q > q0 {
      ProductNonNegative(d, q - q0 - 1);
    } else if q < q0 {
      ProductNonNegative(d, q0 - q - 1);
    }
  }

  /** The one nonlinear fact DivModUnique needs, kept apart: stated inline,
      the product sits in a context with the division terms and the solver
      runs out of resource. */
  lemma ProductNonNegative(d: int, k: int)
    requires d > 0 && k >= 0
    ensures d * k >= 0
  {
  }

  /** The sign shows whether the delta is negative; zero counts as '+'. */
  lemma FormatDeltaSign(ms: int)
    ensures |FormatDelta(ms)| >= 2
    ensures FormatDelta(ms)[0] == '-' <==> ms < 0
    ensures FormatDelta(ms)[0] == '+' <==> ms >= 0
  {
    DeltaMagnitudeText(Magnitude(ms));
  }

  /** What follows the sign is the magnitude's text. */
  lemma FormatDeltaTail(ms: int)
    ensures FormatDelta(ms)[1..] == DeltaMagnitude(Magnitude(ms))
  {
    var sign := if ms < 0 then "-" else "+";
    var tail := DeltaMagnitude(Magnitude(ms));
    assert (sign + tail)[1..] == tail;
  }

  /** The text after the sign is a time display of the magnitude truncated
      to hundredths, with minutes (not hours) from one minute on, and it
      ends in '.' and exactly two centisecond digits. */
  lemma FormatDeltaMagnitude(ms: int, strict: bool)
    ensures ParseTimeWith(FormatDelta(ms)[1..], strict) == Some(Magnitude(ms) - Magnitude(ms) % 10)
    ensures |SplitOn(FormatDelta(ms)[1..], ':')| == (if Magnitude(ms) >= 60000 then 2 else 1)
    ensures var t := FormatDelta(ms)[1..];
      |t| >= 3 && t[|t| - 3] == '.' && Digits(t[|t| - 2..])
  {
    FormatDeltaTail(ms);
    DeltaMagnitudeParses(Magnitude(ms), strict);
  }

  lemma DeltaMagnitudeParses(a: nat, strict: bool)
    ensures var tail := DeltaMagnitude(a);
      ParseTimeWith(tail, strict) == Some(a - a % 10) &&
      |SplitOn(tail, ':')| == (if a >= 60000 then 2 else 1) &&
      tail[|tail| - 3] == '.' && Digits(tail[|tail| - 2..])
  {
    DeltaTotal(a);
    if DeltaMinutes(a) > 0 {
      DeltaMagnitudeText(a);
      DeltaWithMinutes(a, strict);
    } else {
      DeltaMagnitudeText(a);
      DeltaWithoutMinutes(a, strict);
    }
  }

  lemma DeltaWithMinutes(a: nat, strict: bool)
    requires DeltaMinutes(a) > 0
    ensures var tail := NatToString(DeltaMinutes(a)) + ":" + Padded(DeltaSeconds(a), 2) + "." + Padded(Centis(a), 2);
      ParseTimeWith(tail, strict) == Some(TotalMS(0, DeltaMinutes(a), DeltaSeconds(a), Centis(a) * 10)) &&
      |SplitOn(tail, ':')| == 2 &&
      tail[|tail| - 3] == '.' && Digits(tail[|tail| - 2..])
  {
    var cs := Padded(Centis(a), 2);
    CentisFraction(cs);
    var secStr := Padded(DeltaSeconds(a), 2);
    var mStr := NatToString(DeltaMinutes(a));
    ParseMinutesText(mStr, secStr, cs, strict);
    SplitMinutes(mStr, secStr, cs);
    DotBeforeLast(mStr + ":" + secStr, cs);
  }

  lemma DeltaWithoutMinutes(a: nat, strict: bool)
    ensures var tail := NatToString(DeltaSeconds(a)) + "." + Padded(Centis(a), 2);
      ParseTimeWith(tail, strict) == Some(TotalMS(0, 0, DeltaSeconds(a), Centis(a) * 10)) &&
      |SplitOn(tail, ':')| == 1 &&
      tail[|tail| - 3] == '.' && Digits(tail[|tail| - 2..])
  {
    var cs := Padded(Centis(a), 2);
    CentisFraction(cs);
    var sStr := NatToString(DeltaSeconds(a));
    ParseSecondsOnlyText(sStr, cs, strict);
    SplitSecondsOnly(sStr, cs);
    DotBeforeLast(sStr, cs);
  }

  lemma CentisFraction(cs: string)
    requires |cs| == 2 && Digits(cs)
    ensures FractionValue(cs) == DigitsValue(cs) * 10
  {
    FractionValueScale(cs);
    assert Pow10(1) == 10;
  }

  /** The dot and the two centisecond digits at the end of a delta text.
      Kept apart so that both delta layouts use it without unfolding the
      concatenation in their own, larger goals. */
  lemma DotBeforeLast(p: string, cs: string)
    requires |cs| == 2 && Digits(cs)
    ensures var t := p + "." + cs; t[|t| - 3] == '.' && t[|t| - 2..] == cs
  {
  }

  // ---------------------------------------------------------------------------
  // Parser rules

  /** Blank input and "-" (after trimming) mean zero; more than three
      ':'-fields, or more than one '.' in the seconds field, are rejected. */
  lemma ParseTimeRejects(input: string, strict: bool)
    ensures Trim(input) == "" || Trim(input) == "-" ==> ParseTimeWith(input, strict) == Some(0)
    ensures var s := Trim(input); var parts := SplitOn(s, ':');
      s != "" && s != "-" && |parts| > 3 ==> ParseTimeWith(input, strict) == None
    ensures var s := Trim(input); var parts := SplitOn(s, ':');
      s != "" && s != "-" && |parts| <= 3 && |SplitOn(parts[|parts| - 1], '.')| > 2 ==>
        ParseTimeWith(input, strict) == None
  {
  }

  /** A fraction of one to three digits is right-padded: "4" is 400 ms and
      "45" is 450 ms. */
  lemma FractionIsPadded(sec: string, frac: string, strict: bool)
    requires sec != [] && Digits(sec) && 1 <= |frac| <= 3 && Digits(frac)
    ensures ParseTimeWith(sec + "." + frac, strict) ==
      Some(TotalMS(0, 0, DigitsValue(sec), DigitsValue(frac) * Pow10(3 - |frac|)))
  {
    ParseSecondsOnlyText(sec, frac, strict);
    FractionValueScale(frac);
  }

  /** An empty fraction, or one longer than three digits, is rejected. */
  lemma FractionLengthRejected(sec: string, frac: string, strict: bool)
    requires sec != [] && Digits(sec) && Digits(frac) && (|frac| == 0 || |frac| > 3)
    ensures ParseTimeWith(sec + "." + frac, strict) == None
  {
    var text := sec + "." + frac;
    DigitIsPlain(text[0]);
    if frac == [] {
      assert text[|text| - 1] == '.';
    } else {
      assert text[|text| - 1] == frac[|frac| - 1];
      DigitIsPlain(frac[|frac| - 1]);
    }
    TrimUntouched(text);
    SplitSecondsOnly(sec, frac);
    ParseTimeOfFields(text, [text], strict);
    SplitAtDot(sec, frac);
    ParseIntDigits(sec);
  }

  // ---------------------------------------------------------------------------
  // The fraction is not checked to be digits

  /** As written, the fraction goes through `parseInt`, so a minus sign
      after the '.' is read and the fraction is subtracted: "S.-d" reads as
      S seconds minus d right-padded to two digits. */
  lemma SignedFractionAccepted(sec: string, d: string, v: int, f: int)
    requires sec != [] && Digits(sec) && 1 <= |d| <= 2 && Digits(d)
    requires v == DigitsValue(sec) && f == DigitsValue(PadEnd(d, 2, '0'))
    ensures ParseTimeAsWritten(sec + "." + ("-" + d)) == Some(TotalMS(0, 0, v, -f))
  {
    var text := sec + "." + ("-" + d);
    SignedFractionText(sec, d);
    SignedSecondsPart(sec, d, v, f);
    SignedFieldAsWritten(text, v, f);
  }

  /** The corrected reader rejects the same text. */
  lemma SignedFractionRejected(sec: string, d: string)
    requires sec != [] && Digits(sec) && 1 <= |d| <= 2 && Digits(d)
    ensures ParseTime(sec + "." + ("-" + d)) == None
  {
    var text := sec + "." + ("-" + d);
    SignedFractionText(sec, d);
    SignedSecondsPartStrict(sec, d);
    SignedFieldStrict(text);
  }

  lemma SignedFieldAsWritten(text: string, v: int, f: int)
    requires Trim(text) == text && text != "" && text != "-" && SplitOn(text, ':') == [text]
    requires SecondsPart(text, false) == Some((v, -f))
    ensures ParseTimeAsWritten(text) == Some(TotalMS(0, 0, v, -f))
  {
    ParseTimeOfFields(text, [text], false);
    SignedFieldValue(text, v, f);
  }

  lemma SignedFieldValue(text: string, v: int, f: int)
    requires SecondsPart(text, false) == Some((v, -f))
    ensures ParseFields([text], false) == Some(TotalMS(0, 0, v, -f))
  {
    var sp := SecondsPart(text, false);
    FieldsOfOne(text, false, sp);
    assert sp.value == (v, -f);
  }

  lemma SignedFieldStrict(text: string)
    requires Trim(text) == text && text != "" && text != "-" && SplitOn(text, ':') == [text]
    requires SecondsPart(text, true) == None
    ensures ParseTime(text) == None
  {
    ParseTimeOfFields(text, [text], true);
    FieldsOfOne(text, true, None);
  }

  lemma SignedSecondsPart(sec: string, d: string, v: int, f: int)
    requires sec != [] && Digits(sec) && 1 <= |d| <= 2 && Digits(d)
    requires v == DigitsValue(sec) && f == DigitsValue(PadEnd(d, 2, '0'))
    ensures SecondsPart(sec + "." + ("-" + d), false) == Some((v, -f))
  {
    var frac := "-" + d;
    var text := sec + "." + frac;
    SignedFractionText(sec, d);
    ParseIntDigits(sec);
    NegativeFraction(d, f);
    SecondsPartOfTwo(text, sec, frac, v, false);
  }

  lemma SignedSecondsPartStrict(sec: string, d: string)
    requires sec != [] && Digits(sec) && 1 <= |d| <= 2 && Digits(d)
    ensures SecondsPart(sec + "." + ("-" + d), true) == None
  {
    var frac := "-" + d;
    var text := sec + "." + frac;
    SignedFractionText(sec, d);
    ParseIntDigits(sec);
    NegativeFractionRejected(d);
    SecondsPartOfTwo(text, sec, frac, DigitsValue(sec), true);
  }

  lemma SignedFractionText(sec: string, d: string)
    requires sec != [] && Digits(sec) && d != [] && Digits(d)
    ensures var text := sec + "." + ("-" + d);
      Trim(text) == text && text != "" && text != "-" &&
      SplitOn(text, ':') == [text] && SplitOn(text, '.') == [sec, "-" + d]
  {
    var frac := "-" + d;
    var text := sec + "." + frac;
    DigitIsPlain(text[0]);
    assert text[|text| - 1] == d[|d| - 1];
    DigitIsPlain(d[|d| - 1]);
    TrimUntouched(text);
    DigitsHaveNoSeparators(sec);
    DigitsHaveNoSeparators(d);
    assert ':' !in text;
    SplitOnPlain(text, ':');
    assert '.' !in frac;
    assert text == sec + ['.'] + frac;
    SplitOnFirst(sec, frac, '.');
    SplitOnPlain(frac, '.');
  }

  /** A single field is the seconds field. The seconds reading is a parameter
      so callers can name it without ParseFields being unfolded around the
      (costly) text it comes from. */
  lemma FieldsOfOne(t: string, strict: bool, sp: Option<(int, int)>)
    requires SecondsPart(t, strict) == sp
    ensures ParseFields([t], strict) ==
      if sp.None? then None else Some(TotalMS(0, 0, sp.value.0, sp.value.1))
  {
  }

  lemma NegativeFraction(d: string, f: int)
    requires 1 <= |d| <= 2 && Digits(d) && f == DigitsValue(PadEnd(d, 2, '0'))
    ensures FractionAsWritten("-" + d) == Some(-f)
  {
    var e := PadEnd(d, 2, '0');
    PadEndAfterSign(d);
    NegativeDigits(e, f);
    FractionReadsPadded("-" + d, "-" + e, Some(-f));
  }

  lemma FractionReadsPadded(frac: string, p: string, r: Option<int>)
    requires 1 <= |frac| <= 3 && PadEnd(frac, 3, '0') == p && ParseInt(p) == r
    ensures FractionAsWritten(frac) == r
  {
  }

  lemma NegativeFractionRejected(d: string)
    ensures FractionDigitsOnly("-" + d) == None
  {
    assert ("-" + d)[0] == '-';
  }

  /** Padding "-d" to three characters pads d to two. */
  lemma PadEndAfterSign(d: string)
    requires 1 <= |d| <= 2 && Digits(d)
    ensures PadEnd("-" + d, 3, '0') == "-" + PadEnd(d, 2, '0')
    ensures PadEnd(d, 2, '0') != [] && Digits(PadEnd(d, 2, '0'))
  {
    var e := PadEnd(d, 2, '0');
    var p := PadEnd("-" + d, 3, '0');
    assert |p| == |"-" + e|;
    forall i | 0 <= i < |p|
      ensures p[i] == ("-" + e)[i]
    {
      if i == 0 {
      } else if i <= |d| {
        assert p[i] == ("-" + d)[i] == d[i - 1];
      } else {
        assert e[i - 1] == '0';
      }
    }
  }

  lemma NegativeDigits(e: string, f: int)
    requires e != [] && Digits(e) && f == DigitsValue(e)
    ensures ParseInt("-" + e) == Some(-f)
  {
    var t := "-" + e;
    assert t[1..] == e;
    NotWhitespaceStart(t);
    LeadingDigitsOfDigits(e);
    NegativeSigned(t, e, f);
  }

  lemma NotWhitespaceStart(t: string)
    requires t != [] && (t[0] == '-' || t[0] == '+' || IsDigit(t[0]))
    ensures TrimStart(t) == t
  {
    assert !IsJsWhitespace(t[0]);
  }

  lemma NegativeSigned(t: string, e: string, f: int)
    requires t != [] && t[0] == '-' && t[1..] == e && e != [] && LeadingDigits(e) == e
    requires f == DigitsValue(e)
    ensures ParseSigned(t) == Some(-f)
  {
  }

  /** So some input reads as a negative time: "0.-5" gives -50. */
  lemma AsWrittenCanBeNegative(sec: string, d: string)
    requires sec != [] && Digits(sec) && DigitsValue(sec) == 0
    requires |d| == 1 && Digits(d) && DigitsValue(d) > 0
    ensures ParseTimeAsWritten(sec + "." + ("-" + d)).Some?
    ensures ParseTimeAsWritten(sec + "." + ("-" + d)).value == -10 * (DigitsValue(d) as int) < 0
  {
    var k := DigitsValue(d);
    var v := DigitsValue(sec);
    var f := k * 10;
    PaddedDigitValue(d, k);
    SignedFractionAccepted(sec, d, v, f);
    NegativeReading(sec + "." + ("-" + d), v, f);
  }

  /** The total of a zero-second reading is its (negative) fraction. Kept
      apart because the caller's context holds the parser's unfolding, in
      which this arithmetic step runs out of resource. */
  lemma NegativeReading(text: string, v: int, f: int)
    requires ParseTimeAsWritten(text) == Some(TotalMS(0, 0, v, -f)) && v == 0
    ensures ParseTimeAsWritten(text) == Some(-f)
  {
  }

  /** One digit padded to two is ten times its value. */
  lemma PaddedDigitValue(d: string, k: nat)
    requires |d| == 1 && Digits(d) && DigitsValue(d) == k
    ensures Digits(PadEnd(d, 2, '0')) && DigitsValue(PadEnd(d, 2, '0')) == k * 10
  {
    var e := PadEnd(d, 2, '0');
    assert e == d + ['0'];
    assert e[..1] == d;
  }

  /** A seconds field with one '.' reads its two sides. */
  lemma SecondsPartOfTwo(secPart: string, sec: string, frac: string, v: int, strict: bool)
    requires SplitOn(secPart, '.') == [sec, frac] && ParseInt(sec) == Some(v) && v >= 0
    ensures var ms := if strict then FractionDigitsOnly(frac) else FractionAsWritten(frac);
      SecondsPart(secPart, strict) == if ms.None? then None else Some((v, ms.value))
  {
  }

  /** With digit-only fractions no input reads as a negative time. */
  lemma ParseTimeNonNegative(input: string)
    ensures ParseTime(input).Some? ==> ParseTime(input).value >= 0
  {
    var s := Trim(input);
    if s != "" && s != "-" {
      var parts := SplitOn(s, ':');
      if |parts| <= 3 {
        FieldsNonNegative(parts);
      }
    }
  }

  lemma FieldsNonNegative(parts: seq<string>)
    requires 1 <= |parts| <= 3
    ensures ParseFields(parts, true).Some? ==> ParseFields(parts, true).value >= 0
  {
    var sp := SecondsPart(parts[|parts| - 1], true);
    var hours := if |parts| == 3 then ParseInt(parts[0]) else Some(0);
    var minutes := if |parts| == 3 then ParseInt(parts[1])
                   else if |parts| == 2 then ParseInt(parts[0]) else Some(0);
    SecondsPartNonNegative(parts[|parts| - 1]);
    FieldsOf(parts, true, hours, minutes, sp);
    CombinedNonNegative(hours, minutes, sp);
  }

  /** ParseFields in terms of its three field readings, passed as parameters,
      so the non-negativity argument is made on the readings alone. */
  lemma FieldsOf(parts: seq<string>, strict: bool, hours: Option<int>, minutes: Option<int>, sp: Option<(int, int)>)
    requires 1 <= |parts| <= 3
    requires hours == if |parts| == 3 then ParseInt(parts[0]) else Some(0)
    requires minutes == if |parts| == 3 then ParseInt(parts[1]) else if |parts| == 2 then ParseInt(parts[0]) else Some(0)
    requires sp == SecondsPart(parts[|parts| - 1], strict)
    ensures ParseFields(parts, strict) ==
      if hours.None? || minutes.None? || hours.value < 0 || minutes.value < 0 || sp.None? then None
      else Some(TotalMS(hours.value, minutes.value, sp.value.0, sp.value.1))
  {
  }

  /** Combining non-negative readings gives a non-negative total: the
      arithmetic step of ParseTimeNonNegative, stated over values only. */
  lemma CombinedNonNegative(hours: Option<int>, minutes: Option<int>, sp: Option<(int, int)>)
    requires sp.Some? ==> sp.value.0 >= 0 && sp.value.1 >= 0
    ensures var r := if hours.None? || minutes.None? || hours.value < 0 || minutes.value < 0 || sp.None? then None
      else Some(TotalMS(hours.value, minutes.value, sp.value.0, sp.value.1));
      r.Some? ==> r.value >= 0
  {
  }

  lemma SecondsPartNonNegative(t: string)
    ensures SecondsPart(t, true).Some? ==> SecondsPart(t, true).value.0 >= 0 && SecondsPart(t, true).value.1 >= 0
  {
  }
}
