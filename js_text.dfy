/** The JavaScript built-ins the range-header code relies on, on strings
    and numbers: `String.prototype.split` (with `indexOf` and `join` as its
    reference), `parseInt(_, 10)` and the decimal rendering of a number
    inside a template literal. A JavaScript number is modelled as
    `Option<int>`, with `None` standing for `NaN`. */
module JsText {
  import opened Wrappers

  /** A JavaScript number that is an integer or NaN (`None`). */
  type Number = Option<int>

  // ---------------------------------------------------------------------
  // Searching and splitting
  // ---------------------------------------------------------------------

  /** `sep` occurs in `s` starting at index `i`. */
  predicate OccursAt(s: string, sep: string, i: nat) {
    i + |sep| <= |s| && s[i..i + |sep|] == sep
  }

  /** `s.indexOf(sep)`: the index of the leftmost occurrence of `sep`, or
      `None` (JavaScript's -1) when there is none. */
  function IndexOf(s: string, sep: string): (r: Option<nat>)
    requires |sep| > 0
    ensures r.Some? ==> OccursAt(s, sep, r.value)
    ensures r.Some? ==> forall j: nat :: j < r.value ==> !OccursAt(s, sep, j)
    ensures r.None? ==> forall j: nat :: !OccursAt(s, sep, j)
  {
    IndexFrom(s, sep, 0)
  }

  /** The leftmost occurrence of `sep` in `s` at or after index `i`. */
  function IndexFrom(s: string, sep: string, i: nat): (r: Option<nat>)
    requires |sep| > 0
    ensures r.Some? ==> i <= r.value && OccursAt(s, sep, r.value)
    ensures r.Some? ==> forall j: nat :: i <= j < r.value ==> !OccursAt(s, sep, j)
    ensures r.None? ==> forall j: nat :: i <= j ==> !OccursAt(s, sep, j)
    decreases |s| - i
  {
    if i + |sep| > |s| then None
    else if s[i..i + |sep|] == sep then Some(i)
    else IndexFrom(s, sep, i + 1)
  }

  /** The only position before which `sep` does not occur and at which it
      does is the result of `IndexOf`. */
  lemma IndexOfIs(s: string, sep: string, i: nat)
    requires |sep| > 0
    requires OccursAt(s, sep, i)
    requires forall j: nat :: j < i ==> !OccursAt(s, sep, j)
    ensures IndexOf(s, sep) == Some(i)
  {
  }

  /** `parts.join(sep)`. */
  function Join(parts: seq<string>, sep: string): string
  {
    if |parts| == 0 then ""
    else if |parts| == 1 then parts[0]
    else parts[0] + sep + Join(parts[1..], sep)
  }

  /** `s.split(sep)` for a non-empty separator: the pieces between the
      leftmost non-overlapping occurrences of `sep`. No piece contains the
      separator, joining the pieces with it gives `s` back, and the first
      cut is at the leftmost occurrence. */
  function Split(s: string, sep: string): (parts: seq<string>)
    requires |sep| > 0
    ensures |parts| >= 1
    ensures Join(parts, sep) == s
    ensures forall k :: 0 <= k < |parts| ==> IndexOf(parts[k], sep).None?
    ensures |parts| > 1 ==> IndexOf(s, sep) == Some(|parts[0]|)
    decreases |s|
  {
    match IndexOf(s, sep)
    case None => [s]
    case Some(i) =>
      PrefixBeforeFirst(s, sep, i);
      var rest := Split(s[i + |sep|..], sep);
      assert s == s[..i] + sep + s[i + |sep|..];
      [s[..i]] + rest
  }

  /** The text before the leftmost occurrence holds no occurrence. */
  lemma PrefixBeforeFirst(s: string, sep: string, i: nat)
    requires |sep| > 0 && IndexOf(s, sep) == Some(i)
    ensures IndexOf(s[..i], sep).None?
  {
    var p := s[..i];
    if IndexOf(p, sep).Some? {
      var j := IndexOf(p, sep).value;
      assert p[j..j + |sep|] == s[j..j + |sep|];
      assert OccursAt(s, sep, j);
      assert false;
    }
  }

  /** A single-character separator occurs exactly where that character does. */
  lemma CharOccurrence(s: string, c: char)
    ensures IndexOf(s, [c]).None? <==> c !in s
  {
    if c in s {
      var j :| 0 <= j < |s| && s[j] == c;
      assert OccursAt(s, [c], j);
    } else if IndexOf(s, [c]).Some? {
      SingleCharAt(s, c, IndexOf(s, [c]).value);
      assert false;
    }
  }

  lemma SingleCharAt(s: string, c: char, j: nat)
    requires OccursAt(s, [c], j)
    ensures j < |s| && s[j] == c
  {
    assert s[j..j + 1][0] == s[j];
  }

  /** Splitting on a character yields one more piece than the number of
      times the character occurs. */
  lemma {:induction false} SplitCharCount(s: string, c: char)
    ensures |Split(s, [c])| == multiset(s)[c] + 1
    decreases |s|
  {
    match IndexOf(s, [c])
    case None =>
      CharOccurrence(s, c);
    case Some(i) =>
      PrefixBeforeFirst(s, [c], i);
      CharOccurrence(s[..i], c);
      assert s[i] == s[i..i + 1][0] == c;
      assert s == s[..i] + [c] + s[i + 1..];
      assert multiset(s) == multiset(s[..i]) + multiset([c]) + multiset(s[i + 1..]);
      SplitCharCount(s[i + 1..], c);
  }

  /** A text holding the character `c` exactly once, between `a` and `b`,
      splits into exactly `[a, b]`. */
  lemma SplitAroundChar(a: string, c: char, b: string)
    requires c !in a && c !in b
    ensures Split(a + [c] + b, [c]) == [a, b]
  {
    var s := a + [c] + b;
    assert OccursAt(s, [c], |a|);
    forall j: nat | j < |a|
      ensures !OccursAt(s, [c], j)
    {
      assert s[j..j + 1][0] == a[j];
    }
    IndexOfIs(s, [c], |a|);
    assert s[..|a|] == a;
    assert s[|a| + 1..] == b;
    CharOccurrence(b, c);
  }

  /** A text without the character `c` splits into itself alone. */
  lemma SplitWithoutChar(s: string, c: char)
    requires c !in s
    ensures Split(s, [c]) == [s]
  {
    CharOccurrence(s, c);
  }

  // ---------------------------------------------------------------------
  // parseInt(_, 10)
  // ---------------------------------------------------------------------

  /** ECMAScript's StrWhiteSpaceChar: the WhiteSpace code points (tab, line
      tabulation, form feed, the byte order mark and the space separators
      of category Zs) and the LineTerminator ones. */
  predicate IsJsWhiteSpace(ch: char) {
    || ch == '\t' || ch == '\U{000B}' || ch == '\U{000C}' || ch == '\U{FEFF}'
    || ch == '\n' || ch == '\r' || ch == '\U{2028}' || ch == '\U{2029}'
    || ch == ' ' || ch == '\U{00A0}' || ch == '\U{1680}'
    || ('\U{2000}' <= ch <= '\U{200A}')
    || ch == '\U{202F}' || ch == '\U{205F}' || ch == '\U{3000}'
  }

  predicate IsDigit(ch: char) {
    '0' <= ch <= '9'
  }

  predicate AllDigits(s: string) {
    forall i :: 0 <= i < |s| ==> IsDigit(s[i])
  }

  /** Leading white space removed, as `parseInt` does first. */
  function TrimStart(s: string): (t: string)
    ensures |t| <= |s| && t == s[|s| - |t|..]
    ensures forall i :: 0 <= i < |s| - |t| ==> IsJsWhiteSpace(s[i])
    ensures t == "" || !IsJsWhiteSpace(t[0])
  {
    if s != "" && IsJsWhiteSpace(s[0]) then TrimStart(s[1..]) else s
  }

  /** The longest prefix of `s` made of decimal digits. */
  function LeadingDigits(s: string): (d: string)
    ensures d <= s && AllDigits(d)
    ensures d == s || !IsDigit(s[|d|])
  {
    if s != "" && IsDigit(s[0]) then [s[0]] + LeadingDigits(s[1..]) else ""
  }

  /** The value of a run of decimal digits, most significant first. */
  function DigitsValue(d: string): nat
    requires AllDigits(d)
  {
    if d == "" then 0
    else DigitsValue(d[..|d| - 1]) * 10 + ((d[|d| - 1] as int) - ('0' as int))
  }

  /** `parseInt(s, 10)`: skip leading white space, take one optional sign,
      then the longest run of decimal digits; `NaN` (`None`) when that run
      is empty. Whatever follows the digits is ignored. */
  function ParseInt(s: string): (r: Number)
    ensures '-' !in s ==> r.None? || r.value >= 0
  {
    var t := TrimStart(s);
    assert forall i :: 0 <= i < |t| ==> t[i] == s[|s| - |t| + i];
    ParseSigned(t)
  }

  /** One optional sign, then the digits: `-` negates, `+` does not. */
  function ParseSigned(t: string): (r: Number)
    ensures '-' !in t ==> r.None? || r.value >= 0
  {
    if t != "" && t[0] == '-' then Negate(ParseDigits(t[1..]))
    else if t != "" && t[0] == '+' then ParseDigits(t[1..])
    else ParseDigits(t)
  }

  function Negate(x: Number): (r: Number)
    ensures r.Some? <==> x.Some?
    ensures r.Some? ==> r.value == -x.value
  {
    if x.None? then None else Some(-x.value)
  }

  /** The value of the digits `body` starts with; NaN when it does not
      start with a digit. */
  function ParseDigits(body: string): (r: Number)
    ensures r.Some? <==> body != "" && IsDigit(body[0])
    ensures r.None? || r.value >= 0
  {
    var digits := LeadingDigits(body);
    if digits == "" then None else Some(DigitsValue(digits) as int)
  }

  /** Text without any digit is not a number: `parseInt("x", 10)` is NaN. */
  lemma ParseIntNeedsDigit(s: string)
    requires forall i :: 0 <= i < |s| ==> !IsDigit(s[i])
    ensures ParseInt(s).None?
  {
    var t := TrimStart(s);
    assert forall i :: 0 <= i < |t| ==> t[i] == s[|s| - |t| + i];
    if t != "" && (t[0] == '-' || t[0] == '+') {
      assert t[1..] == "" || t[1..][0] == t[1];
    }
  }

  /** Leading digits followed by anything that does not start with a digit
      are exactly the leading run of digits. */
  lemma {:induction false} LeadingDigitsOf(d: string, rest: string)
    requires AllDigits(d)
    requires rest == "" || !IsDigit(rest[0])
    ensures LeadingDigits(d + rest) == d
  {
    if d != "" {
      assert (d + rest)[1..] == d[1..] + rest;
      LeadingDigitsOf(d[1..], rest);
    } else {
      assert d + rest == rest;
    }
  }

  /** A run of digits followed by anything that does not start with a digit
      reads as the run's value: `parseInt` ignores the rest, so
      `parseInt("100abc", 10)` is 100. */
  lemma ParseDigitsOf(d: string, rest: string)
    requires d != "" && AllDigits(d)
    requires rest == "" || !IsDigit(rest[0])
    ensures ParseDigits(d + rest) == Some(DigitsValue(d) as int)
  {
    LeadingDigitsOf(d, rest);
  }

  /** Text that starts with a digit is read without trimming or sign. */
  lemma ParseIntUnsigned(x: string)
    requires x != "" && IsDigit(x[0])
    ensures ParseInt(x) == ParseDigits(x)
  {
    assert !IsJsWhiteSpace(x[0]) && x[0] != '-' && x[0] != '+';
    assert TrimStart(x) == x;
  }

  /** A minus sign in front negates what the text after it reads as, so
      `parseInt("-x5", 10)` is NaN. */
  lemma ParseIntMinus(x: string)
    ensures ParseInt("-" + x) == Negate(ParseDigits(x))
  {
    var s := "-" + x;
    assert s[0] == '-';
    assert TrimStart(s) == s;
    assert s[1..] == x;
  }

  /** A minus sign in front negates the value of the digits that follow. */
  lemma ParseIntNegated(x: string, v: int)
    requires ParseDigits(x) == Some(v)
    ensures ParseInt("-" + x) == Some(-v)
  {
    ParseIntMinus(x);
  }

  /** A plus sign in front is dropped: `parseInt("+7", 10)` is 7. */
  lemma ParseIntPlus(x: string)
    ensures ParseInt("+" + x) == ParseDigits(x)
  {
    var s := "+" + x;
    assert s[0] == '+' && !IsJsWhiteSpace(s[0]);
    assert TrimStart(s) == s;
    assert s[1..] == x;
    assert ParseSigned(s) == ParseDigits(x);
  }

  /** A rendered natural number after a plus sign reads as itself. */
  lemma ParseIntPlusNat(n: nat)
    ensures ParseInt("+" + NatToString(n)) == Some(n)
  {
    ParseIntPlus(NatToString(n));
    ParseDigitsOf(NatToString(n), "");
    assert NatToString(n) + "" == NatToString(n);
  }

  /** Text that starts with a character other than white space, a sign or
      a digit is not a number: `parseInt("x5", 10)` is NaN. */
  lemma ParseIntNonDigitFirst(x: string)
    requires x != "" && !IsJsWhiteSpace(x[0]) && !IsDigit(x[0])
    requires x[0] != '+' && x[0] != '-'
    ensures ParseInt(x).None?
  {
    assert TrimStart(x) == x;
  }

  /** White space in front is skipped: `parseInt(" 7", 10)` is 7. */
  lemma ParseIntSkipsWhiteSpace(ws: string, x: string)
    requires forall i :: 0 <= i < |ws| ==> IsJsWhiteSpace(ws[i])
    requires x == "" || !IsJsWhiteSpace(x[0])
    ensures ParseInt(ws + x) == ParseInt(x)
  {
    TrimStartOf(ws, x);
    assert TrimStart(x) == x;
  }

  lemma {:induction false} TrimStartOf(ws: string, x: string)
    requires forall i :: 0 <= i < |ws| ==> IsJsWhiteSpace(ws[i])
    requires x == "" || !IsJsWhiteSpace(x[0])
    ensures TrimStart(ws + x) == x
    decreases |ws|
  {
    if ws == "" {
      assert ws + x == x;
    } else {
      assert (ws + x)[0] == ws[0];
      assert (ws + x)[1..] == ws[1..] + x;
      TrimStartOf(ws[1..], x);
    }
  }

  // ---------------------------------------------------------------------
  // Number to decimal string
  // ---------------------------------------------------------------------

  function DigitChar(n: nat): (ch: char)
    requires n < 10
    ensures IsDigit(ch) && (ch as int) - ('0' as int) == n
  {
    ('0' as int + n) as char
  }

  /** The decimal digits of `n`, without leading zeros; reading them back
      gives `n`. */
  function NatToString(n: nat): (s: string)
    ensures s != "" && AllDigits(s)
    ensures |s| > 1 ==> s[0] != '0'
    ensures DigitsValue(s) == n
  {
    if n < 10 then [DigitChar(n)]
    else
      var s := NatToString(n / 10) + [DigitChar(n % 10)];
      assert s[..|s| - 1] == NatToString(n / 10);
      s
  }

  /** The decimal rendering of an integer, as a template literal gives it
      (a minus sign for negative values). */
  function IntToString(i: int): (s: string)
    ensures s != "" && (s[0] == '-' <==> i < 0)
    ensures i >= 0 ==> IsDigit(s[0])
  {
    if i < 0 then "-" + NatToString(-i) else NatToString(i)
  }

  /** The rendering of a number in a template literal: `NaN` or decimal. */
  function NumberToString(x: Number): string
  {
    match x
    case None => "NaN"
    case Some(i) => IntToString(i)
  }

  /** `parseInt` reads back every rendered integer, whatever follows it as
      long as that does not start with a digit. */
  lemma ParseIntOfIntToString(i: int, rest: string)
    requires rest == "" || !IsDigit(rest[0])
    ensures ParseInt(IntToString(i) + rest) == Some(i)
  {
    if i < 0 {
      ParseIntOfNegativeText(i, rest);
    } else {
      ParseIntOfNatText(i, rest);
    }
  }

  lemma ParseIntOfNatText(i: int, rest: string)
    requires i >= 0
    requires rest == "" || !IsDigit(rest[0])
    ensures ParseInt(IntToString(i) + rest) == Some(i)
  {
    var d := NatToString(i);
    ParseDigitsOf(d, rest);
    assert (d + rest)[0] == d[0];
    ParseIntUnsigned(d + rest);
  }

  lemma ParseIntOfNegativeText(i: int, rest: string)
    requires i < 0
    requires rest == "" || !IsDigit(rest[0])
    ensures ParseInt(IntToString(i) + rest) == Some(i)
  {
    var d := NatToString(-i);
    assert IntToString(i) + rest == "-" + (d + rest);
    ParseDigitsOf(d, rest);
    ParseIntNegated(d + rest, -i);
  }

  /** `parseInt` reads back every rendered natural number. */
  lemma ParseIntOfNatToString(n: nat)
    ensures ParseInt(NatToString(n)) == Some(n)
  {
    ParseIntOfIntToString(n, "");
    assert NatToString(n) + "" == NatToString(n);
  }

  /** `parseInt("NaN", 10)` is NaN, so rendered numbers, NaN included, read
      back as themselves. */
  lemma ParseIntOfNumberToString(x: Number)
    ensures ParseInt(NumberToString(x)) == x
  {
    match x
    case None =>
      ParseIntOfNaN();
    case Some(i) =>
      ParseIntOfIntToString(i, "");
      assert IntToString(i) + "" == IntToString(i);
  }

  lemma ParseIntOfNaN()
    ensures ParseInt("NaN").None?
  {
    assert !IsDigit("NaN"[0]) && !IsDigit("NaN"[1]) && !IsDigit("NaN"[2]);
    ParseIntNeedsDigit("NaN");
  }

  /** Different integers render differently. */
  lemma IntToStringInjective(i: int, j: int, rest: string)
    requires rest == "" || !IsDigit(rest[0])
    requires IntToString(i) + rest == IntToString(j) + rest
    ensures i == j
  {
    ParseIntOfIntToString(i, rest);
    ParseIntOfIntToString(j, rest);
  }
}
