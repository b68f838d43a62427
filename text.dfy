/** The string and integer-text helpers the loader relies on: ASCII
    lower-casing, the key split of the prefix matcher, `str.split`/`str.join`,
    `#` replacement, `int(s)` and `int(s, 0)`, and `%s` name templates. */
module Text {
  import opened Wrappers

  predicate IsDigit(c: char) {
    '0' <= c <= '9'
  }

  predicate AllDigits(s: string) {
    forall i :: 0 <= i < |s| ==> IsDigit(s[i])
  }

  function LowerChar(c: char): char {
    if 'A' <= c <= 'Z' then (c as int + 32) as char else c
  }

  /** `str.lower()` restricted to ASCII letters. */
  function Lower(s: string): (r: string)
    ensures |r| == |s|
    ensures forall i :: 0 <= i < |s| ==> r[i] == LowerChar(s[i])
  {
    if s == [] then [] else [LowerChar(s[0])] + Lower(s[1..])
  }

  /** Lower-casing twice changes nothing more than lower-casing once. */
  lemma LowerIdempotent(s: string)
    ensures Lower(Lower(s)) == Lower(s)
  {
    assert forall i :: 0 <= i < |s| ==> LowerChar(LowerChar(s[i])) == LowerChar(s[i]);
  }

  predicate StartsWith(s: string, prefix: string) {
    |prefix| <= |s| && s[..|prefix|] == prefix
  }

  predicate EndsWith(s: string, suffix: string) {
    |suffix| <= |s| && s[|s| - |suffix|..] == suffix
  }

  /** The part of `s` the pattern `^(.*?)([0-9]*)$` spans: `$` also
      matches just before a final newline, which is then left out. */
  function MatchedText(s: string): (t: string)
    ensures t == s || (s == t + "\n")
  {
    if s != [] && s[|s| - 1] == '\n' then s[..|s| - 1] else s
  }

  /** The text before the maximal run of trailing decimal digits, and that
      run. */
  function DigitGroups(s: string): (r: (string, string))
    ensures r.0 + r.1 == s
    ensures AllDigits(r.1)
    ensures r.0 == [] || !IsDigit(r.0[|r.0| - 1])
  {
    if s == [] || !IsDigit(s[|s| - 1]) then (s, [])
    else
      var (name, number) := DigitGroups(s[..|s| - 1]);
      assert name + number == s[..|s| - 1];
      assert name + (number + [s[|s| - 1]]) == s[..|s| - 1] + [s[|s| - 1]];
      (name, number + [s[|s| - 1]])
  }

  lemma {:induction false} DigitGroupsUnique(s: string, name: string, number: string)
    requires name + number == s
    requires AllDigits(number)
    requires name == [] || !IsDigit(name[|name| - 1])
    ensures DigitGroups(s) == (name, number)
  {
    if number == [] {
      assert s == name;
    } else {
      var n' := number[..|number| - 1];
      assert s[..|s| - 1] == name + n';
      assert s[|s| - 1] == number[|number| - 1];
      DigitGroupsUnique(s[..|s| - 1], name, n');
      assert n' + [number[|number| - 1]] == number;
    }
  }

  /** The two groups of `re.match(r'^(.*?)([0-9]*)$', s)`: over the text
      the match spans, the text before the maximal run of trailing decimal
      digits, and that run. */
  function SplitKey(s: string): (r: (string, string))
    ensures r.0 + r.1 == MatchedText(s)
    ensures AllDigits(r.1)
    ensures r.0 == [] || !IsDigit(r.0[|r.0| - 1])
  {
    DigitGroups(MatchedText(s))
  }

  /** The split is the only one with those three properties: the lazy group
      leaves every trailing digit to the digit group. */
  lemma SplitKeyUnique(s: string, name: string, number: string)
    requires name + number == MatchedText(s)
    requires AllDigits(number)
    requires name == [] || !IsDigit(name[|name| - 1])
    ensures SplitKey(s) == (name, number)
  {
    DigitGroupsUnique(MatchedText(s), name, number);
  }

  /** A final newline is not part of the match: `"a1\n"` splits as `"a1"`
      does. */
  lemma SplitKeyFinalNewline(s: string)
    requires s == [] || s[|s| - 1] != '\n'
    ensures SplitKey(s + "\n") == SplitKey(s)
  {
    assert (s + "\n")[..|s|] == s;
  }

  /** Python's `str.split(sep)` with a one-character separator: never empty. */
  function Split(s: string, sep: char): (parts: seq<string>)
    ensures |parts| >= 1
    ensures forall i :: 0 <= i < |parts| ==> sep !in parts[i]
  {
    if s == [] then [[]]
    else if s[0] == sep then [[]] + Split(s[1..], sep)
    else
      var rest := Split(s[1..], sep);
      [[s[0]] + rest[0]] + rest[1..]
  }

  /** Python's `sep.join(parts)`. */
  function Join(parts: seq<string>, sep: char): string {
    if parts == [] then []
    else if |parts| == 1 then parts[0]
    else parts[0] + [sep] + Join(parts[1..], sep)
  }

  lemma {:induction false} SplitNoSeparator(s: string, sep: char)
    requires sep !in s
    ensures Split(s, sep) == [s]
  {
    if s != [] {
      SplitNoSeparator(s[1..], sep);
      assert [s[0]] + s[1..] == s;
    }
  }

  lemma {:induction false} SplitAtSeparator(a: string, sep: char, t: string)
    requires sep !in a
    ensures Split(a + [sep] + t, sep) == [a] + Split(t, sep)
  {
    if a == [] {
      assert a + [sep] + t == [sep] + t;
      assert ([sep] + t)[1..] == t;
    } else {
      assert (a + [sep] + t)[1..] == a[1..] + [sep] + t;
      SplitAtSeparator(a[1..], sep, t);
      assert [a[0]] + a[1..] == a;
    }
  }

  /** Splitting a join gives back the parts when no part holds the separator. */
  lemma {:induction false} SplitJoin(parts: seq<string>, sep: char)
    requires |parts| >= 1
    requires forall i :: 0 <= i < |parts| ==> sep !in parts[i]
    ensures Split(Join(parts, sep), sep) == parts
  {
    if |parts| == 1 {
      SplitNoSeparator(parts[0], sep);
    } else {
      SplitJoin(parts[1..], sep);
      SplitAtSeparator(parts[0], sep, Join(parts[1..], sep));
      assert [parts[0]] + parts[1..] == parts;
    }
  }

  /** Python's `s.replace("#", "0x")`. */
  function ReplaceHash(s: string): (r: string)
    ensures '#' !in r
    ensures '#' !in s ==> r == s
  {
    if s == [] then []
    else (if s[0] == '#' then "0x" else [s[0]]) + ReplaceHash(s[1..])
  }

  /** The characters Python's `str.isspace()` accepts: the ASCII
      whitespace, the separators U+001C to U+001F, and the Unicode space
      and line-break characters. */
  predicate IsSpace(c: char) {
    || c == ' ' || '\t' <= c <= '\r'
    || '\U{1C}' <= c <= '\U{1F}'
    || c == '\U{85}' || c == '\U{A0}' || c == '\U{1680}'
    || '\U{2000}' <= c <= '\U{200A}'
    || c == '\U{2028}' || c == '\U{2029}' || c == '\U{202F}' || c == '\U{205F}' || c == '\U{3000}'
  }

  predicate AllSpace(s: string) {
    forall i :: 0 <= i < |s| ==> IsSpace(s[i])
  }

  /** The number of whitespace characters `s` starts with. */
  function LeadingSpaces(s: string): (n: nat)
    ensures n <= |s|
    ensures forall i :: 0 <= i < n ==> IsSpace(s[i])
    ensures n < |s| ==> !IsSpace(s[n])
  {
    if s != [] && IsSpace(s[0]) then
      var n := LeadingSpaces(s[1..]);
      assert forall i :: 1 <= i < n + 1 ==> s[i] == s[1..][i - 1];
      n + 1
    else 0
  }

  /** The number of whitespace characters `s` ends with. */
  function TrailingSpaces(s: string): (n: nat)
    ensures n <= |s|
    ensures forall i :: |s| - n <= i < |s| ==> IsSpace(s[i])
    ensures n < |s| ==> !IsSpace(s[|s| - 1 - n])
  {
    if s != [] && IsSpace(s[|s| - 1]) then
      var n := TrailingSpaces(s[..|s| - 1]);
      assert forall i :: |s| - 1 - n <= i < |s| - 1 ==> s[i] == s[..|s| - 1][i];
      n + 1
    else 0
  }

  /** `s.strip()`: the text between the leading and the trailing
      whitespace, so neither end of the result is whitespace. */
  function Strip(s: string): (r: string)
    ensures r == [] || (!IsSpace(r[0]) && !IsSpace(r[|r| - 1]))
  {
    var u := s[LeadingSpaces(s)..];
    u[..|u| - TrailingSpaces(u)]
  }

  /** The count of leading whitespace is the one position where the
      whitespace run ends. */
  lemma LeadingSpacesIs(s: string, n: nat)
    requires n <= |s| && forall i :: 0 <= i < n ==> IsSpace(s[i])
    requires n < |s| ==> !IsSpace(s[n])
    ensures LeadingSpaces(s) == n
  {
  }

  /** The count of trailing whitespace is the one position where the
      whitespace run starts. */
  lemma TrailingSpacesIs(s: string, n: nat)
    requires n <= |s| && forall i :: |s| - n <= i < |s| ==> IsSpace(s[i])
    requires n < |s| ==> !IsSpace(s[|s| - 1 - n])
    ensures TrailingSpaces(s) == n
  {
  }

  /** `strip()` takes off exactly the whitespace around a text whose ends
      are not whitespace. */
  lemma StripPadded(p: string, t: string, q: string)
    requires AllSpace(p) && AllSpace(q)
    requires t == [] || (!IsSpace(t[0]) && !IsSpace(t[|t| - 1]))
    ensures Strip(p + t + q) == t
  {
    var s := p + t + q;
    if t == [] {
      assert forall i :: 0 <= i < |s| ==> IsSpace(s[i]) by {
        forall i | 0 <= i < |s| ensures IsSpace(s[i]) {
          if i < |p| { assert s[i] == p[i]; } else { assert s[i] == q[i - |p|]; }
        }
      }
      LeadingSpacesIs(s, |s|);
    } else {
      assert forall i :: 0 <= i < |p| ==> s[i] == p[i];
      assert s[|p|] == t[0];
      LeadingSpacesIs(s, |p|);
      var u := s[|p|..];
      assert u == t + q;
      assert forall i :: |t| <= i < |u| ==> u[i] == q[i - |t|];
      assert u[|t| - 1] == t[|t| - 1];
      TrailingSpacesIs(u, |q|);
      assert u[..|u| - |q|] == t;
    }
  }

  /** The lower-case digit character for `d` in bases up to 16. */
  function DigitChar(d: nat): char
    requires d < 16
  {
    if d < 10 then ('0' as int + d) as char else ('a' as int + d - 10) as char
  }

  /** The digits of `n` in `base`, most significant first and without
      leading zeros: `str(n)` in base 10, `format(n, "x")`, `"o"` and `"b"`
      in bases 16, 8 and 2. Every character is a digit of the base. */
  function DigitsOf(n: nat, base: nat): (s: string)
    requires 2 <= base <= 16
    ensures |s| >= 1
    ensures n > 0 ==> s[0] != '0'
    ensures forall i :: 0 <= i < |s| ==> DigitValue(s[i]).Some? && DigitValue(s[i]).value < base
  {
    if n < base then
      assert DigitValue(DigitChar(n)) == Some(n);
      [DigitChar(n)]
    else
      DivideByBase(n, base);
      var s := DigitsOf(n / base, base) + [DigitChar(n % base)];
      assert DigitValue(DigitChar(n % base)) == Some(n % base);
      s
  }

  /** Euclidean division of `n` by a base it is at least. */
  lemma DivideByBase(n: nat, base: nat)
    requires 2 <= base <= n
    ensures 0 < n / base < n && n % base < base
    ensures (n / base) * base + n % base == n
  {
  }

  /** `str(n)` for a non-negative integer. */
  function NatToString(n: nat): (s: string)
    ensures |s| >= 1 && AllDigits(s)
    ensures n > 0 ==> s[0] != '0'
  {
    var s := DigitsOf(n, 10);
    assert forall i :: 0 <= i < |s| ==> IsDigit(s[i]) by {
      forall i | 0 <= i < |s| ensures IsDigit(s[i]) {
        assert DigitValue(s[i]).value < 10;
      }
    }
    s
  }

  /** The value of one digit character in bases up to 16 (either case). */
  function DigitValue(c: char): Option<nat> {
    if '0' <= c <= '9' then Some(c as int - '0' as int)
    else if 'a' <= c <= 'f' then Some(c as int - 'a' as int + 10)
    else if 'A' <= c <= 'F' then Some(c as int - 'A' as int + 10)
    else None
  }

  /** The value of a digit string in `base`; None when a character is not a
      digit of that base. The empty string has value 0. */
  function DigitsValue(s: string, base: nat): Option<nat> {
    if s == [] then Some(0)
    else match (DigitsValue(s[..|s| - 1], base), DigitValue(s[|s| - 1]))
      case (Some(v), Some(d)) => if d < base then Some(v * base + d) else None
      case _ => None
  }

  /** Python's `int(s)`: a non-empty run of decimal digits (signs, spaces
      and underscores are not modelled). */
  function ParseDecimal(s: string): (r: Option<nat>)
    ensures r.Some? ==> s != [] && AllDigits(s)
  {
    if s == [] then None else
    DigitsValueDecimal(s);
    DigitsValue(s, 10)
  }

  lemma {:induction false} DigitsValueDecimal(s: string)
    ensures DigitsValue(s, 10).Some? <==> AllDigits(s)
  {
    if s != [] {
      DigitsValueDecimal(s[..|s| - 1]);
      assert forall i :: 0 <= i < |s| - 1 ==> s[..|s| - 1][i] == s[i];
    }
  }

  predicate AllZeros(s: string) {
    forall i :: 0 <= i < |s| ==> s[i] == '0'
  }

  /** Python's `int(s, 0)`: a `0x`/`0X`, `0o`/`0O` or `0b`/`0B` prefix selects
      base 16, 8 or 2 and must be followed by at least one digit; otherwise
      the text is decimal, where a leading zero is only allowed if every
      digit is zero. */
  function ParseAutoBase(s: string): (r: Option<nat>)
    ensures r.Some? && s != [] && s[0] != '0' ==> AllDigits(s)
  {
    if |s| >= 2 && s[0] == '0' && s[1] in "xX" then ParseDigits(s[2..], 16)
    else if |s| >= 2 && s[0] == '0' && s[1] in "oO" then ParseDigits(s[2..], 8)
    else if |s| >= 2 && s[0] == '0' && s[1] in "bB" then ParseDigits(s[2..], 2)
    else if s != [] && s[0] == '0' && !AllZeros(s) then None
    else ParseDecimal(s)
  }

  function ParseDigits(s: string, base: nat): Option<nat> {
    if s == [] then None else DigitsValue(s, base)
  }

  /** `int(str(n))` and `int(str(n), 0)` both give `n` back. */
  lemma {:induction false} DecimalRoundTrip(n: nat)
    ensures ParseDecimal(NatToString(n)) == Some(n)
    ensures ParseAutoBase(NatToString(n)) == Some(n)
  {
    DigitsRoundTrip(n, 10);
    var s := NatToString(n);
    if n == 0 {
      assert s == "0";
    } else {
      assert s[0] != '0';
    }
  }

  /** The digits of `n` in `base` read in `base` give back `n`. */
  lemma {:induction false} DigitsRoundTrip(n: nat, base: nat)
    requires 2 <= base <= 16
    ensures DigitsValue(DigitsOf(n, base), base) == Some(n)
  {
    if n >= base {
      var q, r := n / base, n % base;
      DivideByBase(n, base);
      DigitsRoundTrip(q, base);
      assert DigitsOf(n, base) == DigitsOf(q, base) + [DigitChar(r)];
      AppendDigit(DigitsOf(q, base), DigitChar(r), base);
    } else {
      assert DigitsOf(n, base)[..0] == [];
    }
  }

  /** One more digit multiplies the value by the base and adds the digit. */
  lemma AppendDigit(t: string, c: char, base: nat)
    requires DigitsValue(t, base).Some? && DigitValue(c).Some? && DigitValue(c).value < base
    ensures DigitsValue(t + [c], base) == Some(DigitsValue(t, base).value * base + DigitValue(c).value)
  {
    assert (t + [c])[..|t|] == t;
  }

  /** `int("0x" + format(n, "x"), 0)`, and likewise with `0o` and octal
      digits and with `0b` and binary digits, in either letter case, give
      back `n`. */
  lemma PrefixedRoundTrip(n: nat, letter: char, base: nat)
    requires (letter in "xX" && base == 16) || (letter in "oO" && base == 8) || (letter in "bB" && base == 2)
    ensures ParseAutoBase(['0', letter] + DigitsOf(n, base)) == Some(n)
  {
    var s := ['0', letter] + DigitsOf(n, base);
    assert s[2..] == DigitsOf(n, base);
    DigitsRoundTrip(n, base);
  }

  /** `#` followed by hexadecimal digits becomes a `0x` literal that
      `int(s, 0)` reads back. */
  lemma HashRoundTrip(n: nat)
    ensures ReplaceHash("#" + DigitsOf(n, 16)) == "0x" + DigitsOf(n, 16)
    ensures ParseAutoBase(ReplaceHash("#" + DigitsOf(n, 16))) == Some(n)
  {
    var t := DigitsOf(n, 16);
    assert '#' !in t by {
      forall i | 0 <= i < |t| ensures t[i] != '#' {
        assert DigitValue(t[i]).Some?;
      }
    }
    assert ("#" + t)[1..] == t;
    PrefixedRoundTrip(n, 'x', 16);
  }

  /** A `%`-style name template holding exactly one `%s` placeholder. */
  datatype NameTemplate = NameTemplate(prefix: string, suffix: string)

  /** Reads `text` as a template for `text % index` with a string index: it
      must hold a single `%s` and no other `%`. Anything else makes Python
      raise TypeError (no placeholder, or a second one) and gives None here. */
  function ParseTemplate(text: string): (t: Option<NameTemplate>)
    ensures t.Some? ==> text == t.value.prefix + "%s" + t.value.suffix
    ensures t.Some? ==> '%' !in t.value.prefix && '%' !in t.value.suffix
  {
    if text == [] then None
    else if text[0] == '%' then
      if |text| >= 2 && text[1] == 's' && '%' !in text[2..] then
        assert text == "%s" + text[2..];
        Some(NameTemplate([], text[2..]))
      else None
    else match ParseTemplate(text[1..])
      case Some(t) =>
        assert text == [text[0]] + text[1..];
        Some(NameTemplate([text[0]] + t.prefix, t.suffix))
      case None => None
  }

  /** `template % index`. */
  function Instantiate(t: NameTemplate, index: string): string {
    t.prefix + index + t.suffix
  }

  /** Every text with exactly one `%s` and no other `%` is read back as the
      template it was written from. */
  lemma {:induction false} ParseTemplateComplete(prefix: string, suffix: string)
    requires '%' !in prefix && '%' !in suffix
    ensures ParseTemplate(prefix + "%s" + suffix) == Some(NameTemplate(prefix, suffix))
  {
    var text := prefix + "%s" + suffix;
    if prefix == [] {
      assert text[2..] == suffix;
    } else {
      assert text[1..] == prefix[1..] + "%s" + suffix;
      ParseTemplateComplete(prefix[1..], suffix);
      assert [text[0]] + prefix[1..] == prefix;
    }
  }

  /** Different labels give different names. */
  lemma InstantiateInjective(t: NameTemplate, a: string, b: string)
    requires Instantiate(t, a) == Instantiate(t, b)
    ensures a == b
  {
    var x, y := Instantiate(t, a), Instantiate(t, b);
    assert |a| == |b|;
    assert forall i :: 0 <= i < |a| ==> a[i] == x[|t.prefix| + i] == y[|t.prefix| + i] == b[i];
  }
}
