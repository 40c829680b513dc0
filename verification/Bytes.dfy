/** Characters, C library conversions and decimal printing.

    A C++ `char` is modelled by a Dafny `char` holding its unsigned code. Codes of 128 and more
    stand for the negative values of a signed `char`: they are neither HTTP characters nor
    control characters, and the C locale's classification functions reject them. */
module Bytes {

  predicate IsChar(c: char) {
    c as int <= 127
  }

  predicate IsControl(c: char) {
    c as int <= 31 || c as int == 127
  }

  predicate IsSpecial(c: char) {
    c in "()<>@,;:\\\"/[]?={} \t"
  }

  predicate IsDigit(c: char) {
    '0' <= c <= '9'
  }

  predicate IsAlpha(c: char) {
    'a' <= c <= 'z' || 'A' <= c <= 'Z'
  }

  predicate IsAlnum(c: char) {
    IsAlpha(c) || IsDigit(c)
  }

  /** The characters of a method or a header name. */
  predicate IsTokenChar(c: char) {
    IsChar(c) && !IsControl(c) && !IsSpecial(c)
  }

  predicate IsToken(s: string) {
    s != "" && forall i :: 0 <= i < |s| ==> IsTokenChar(s[i])
  }

  lemma PlainTextIsToken(s: string)
    requires s != "" && forall i :: 0 <= i < |s| ==> IsAlpha(s[i]) || s[i] == '-'
    ensures IsToken(s)
  {
    forall i | 0 <= i < |s| ensures IsTokenChar(s[i]) {}
  }

  predicate NoControls(s: string) {
    forall i :: 0 <= i < |s| ==> !IsControl(s[i])
  }

  function Lower(c: char): char {
    if 'A' <= c <= 'Z' then c - 'A' + 'a' else c
  }

  /** `strcasecmp(a, b) == 0`; no argument here contains a NUL. */
  predicate EqualsNoCase(a: string, b: string) {
    |a| == |b| && forall i :: 0 <= i < |a| ==> Lower(a[i]) == Lower(b[i])
  }

  function DigitValue(c: char): nat
    requires IsDigit(c)
  {
    (c - '0') as nat
  }

  /** The number read so far is `n`; the leading digits of `s` follow it. */
  function ReadDigits(n: nat, s: string): nat
    decreases s
  {
    if s == "" || !IsDigit(s[0]) then n else ReadDigits(10 * n + DigitValue(s[0]), s[1..])
  }

  predicate IsSpace(c: char) {
    c == ' ' || 9 <= c as int <= 13
  }

  function SkipSpaces(s: string): string {
    if s != "" && IsSpace(s[0]) then SkipSpaces(s[1..]) else s
  }

  /** `atoi` and, where it returns, `stol`, without overflow. */
  function Atoi(s: string): int {
    var t := SkipSpaces(s);
    if t != "" && t[0] == '-' then 0 - ReadDigits(0, t[1..])
    else if t != "" && t[0] == '+' then ReadDigits(0, t[1..])
    else ReadDigits(0, t)
  }

  predicate IsHexDigit(c: char) {
    IsDigit(c) || 'a' <= c <= 'f' || 'A' <= c <= 'F'
  }

  function HexDigitValue(c: char): nat
    requires IsHexDigit(c)
  {
    if IsDigit(c) then (c - '0') as nat
    else if 'a' <= c <= 'f' then 10 + (c - 'a') as nat
    else 10 + (c - 'A') as nat
  }

  function ReadHexDigits(n: nat, s: string): nat
    decreases s
  {
    if s == "" || !IsHexDigit(s[0]) then n else ReadHexDigits(16 * n + HexDigitValue(s[0]), s[1..])
  }

  /** `strtol(s, NULL, 16)` on alphanumeric text: an optional 0x prefix counts only before a
      hexadecimal digit, and anything after the leading digits is ignored. */
  function Strtol16(s: string): nat {
    if |s| >= 3 && s[0] == '0' && (s[1] == 'x' || s[1] == 'X') && IsHexDigit(s[2])
    then ReadHexDigits(0, s[2..])
    else ReadHexDigits(0, s)
  }

  /** `stream << n`. */
  function Decimal(n: nat): (s: string)
    ensures s != "" && forall i :: 0 <= i < |s| ==> IsDigit(s[i])
  {
    if n < 10 then [n as char + '0'] else Decimal(n / 10) + [(n % 10) as char + '0']
  }

  lemma {:induction false} ReadDigitsAppend(n: nat, s: string, d: char)
    requires IsDigit(d) && forall i :: 0 <= i < |s| ==> IsDigit(s[i])
    ensures ReadDigits(n, s + [d]) == 10 * ReadDigits(n, s) + DigitValue(d)
    decreases s
  {
    if s == "" {
      assert [d][1..] == "";
    } else {
      assert (s + [d])[1..] == s[1..] + [d];
      ReadDigitsAppend(10 * n + DigitValue(s[0]), s[1..], d);
    }
  }

  /** Reading back a printed number gives the number. */
  lemma {:induction false} DecimalRoundTrip(n: nat)
    ensures ReadDigits(0, Decimal(n)) == n
  {
    if n < 10 {
      assert Decimal(n)[1..] == "";
    } else {
      DecimalRoundTrip(n / 10);
      ReadDigitsAppend(0, Decimal(n / 10), (n % 10) as char + '0');
    }
  }

  // ---- what the conversions mean -----------------------------------------------------------------

  predicate IsHexText(s: string) {
    forall i :: 0 <= i < |s| ==> IsHexDigit(s[i])
  }

  /** The number a string of hexadecimal digits writes, by place value from its last digit. */
  function HexNumber(s: string): nat
    requires IsHexText(s)
  {
    if s == "" then 0 else 16 * HexNumber(s[..|s| - 1]) + HexDigitValue(s[|s| - 1])
  }

  lemma {:induction false} ReadHexAppend(n: nat, s: string, d: char)
    requires IsHexText(s) && IsHexDigit(d)
    ensures ReadHexDigits(n, s + [d]) == 16 * ReadHexDigits(n, s) + HexDigitValue(d)
    decreases s
  {
    if s == "" {
      assert [d][1..] == "";
    } else {
      assert (s + [d])[1..] == s[1..] + [d];
      ReadHexAppend(16 * n + HexDigitValue(s[0]), s[1..], d);
    }
  }

  lemma {:induction false} ReadHexIsNumber(s: string)
    requires IsHexText(s)
    ensures ReadHexDigits(0, s) == HexNumber(s)
  {
    if s != "" {
      var n := |s| - 1;
      ReadHexIsNumber(s[..n]);
      ReadHexAppend(0, s[..n], s[n]);
      assert s[..n] + [s[n]] == s;
    }
  }

  lemma {:induction false} ReadHexStops(n: nat, s: string, t: string)
    requires IsHexText(s) && (t == "" || !IsHexDigit(t[0]))
    ensures ReadHexDigits(n, s + t) == ReadHexDigits(n, s)
    decreases s
  {
    if s == "" {
      assert s + t == t;
    } else {
      assert (s + t)[1..] == s[1..] + t;
      ReadHexStops(16 * n + HexDigitValue(s[0]), s[1..], t);
    }
  }

  /** A size text is worth its leading hexadecimal digits, by place value; anything may follow them,
      and a 0x in front of a digit does not count. */
  lemma Strtol16Meaning(s: string, t: string)
    requires IsHexText(s) && (t == "" || !IsHexDigit(t[0]))
    ensures !(s == "0" && |t| >= 2 && (t[0] == 'x' || t[0] == 'X') && IsHexDigit(t[1])) ==> Strtol16(s + t) == HexNumber(s)
    ensures s != "" ==> Strtol16("0x" + s + t) == Strtol16("0X" + s + t) == HexNumber(s)
  {
    hide ReadHexDigits, HexNumber, Strtol16;
    ReadHexIsNumber(s);
    ReadHexStops(0, s, t);
    if !(s == "0" && |t| >= 2 && (t[0] == 'x' || t[0] == 'X') && IsHexDigit(t[1])) {
      NotPrefixed(s, t);
    }
    if s != "" {
      Prefixed('x', s, t);
      Prefixed('X', s, t);
    }
  }

  lemma Prefixed(x: char, s: string, t: string)
    requires (x == 'x' || x == 'X') && IsHexText(s) && s != ""
    ensures Strtol16(['0', x] + s + t) == ReadHexDigits(0, s + t)
  {
    var u := ['0', x] + s + t;
    assert u[2..] == s + t && u[2] == s[0];
  }

  lemma NotPrefixed(s: string, t: string)
    requires IsHexText(s) && (t == "" || !IsHexDigit(t[0]))
    requires !(s == "0" && |t| >= 2 && (t[0] == 'x' || t[0] == 'X') && IsHexDigit(t[1]))
    ensures Strtol16(s + t) == ReadHexDigits(0, s + t)
  {
    hide ReadHexDigits;
    var u := s + t;
    assert s == "" ==> u == t;
    assert |s| == 1 ==> s == [s[0]] && u[0] == s[0] && u[1..] == t;
    assert |s| >= 2 ==> u[1] == s[1] && IsHexDigit(u[1]);
  }

  function HexDigit(n: nat): (c: char)
    requires n < 16
    ensures IsHexDigit(c) && IsAlnum(c) && HexDigitValue(c) == n
  {
    if n < 10 then n as char + '0' else (n - 10) as char + 'a'
  }

  function HexText(n: nat): (s: string)
    ensures s != "" && IsHexText(s) && forall i :: 0 <= i < |s| ==> IsAlnum(s[i])
  {
    if n < 16 then [HexDigit(n)] else HexText(n / 16) + [HexDigit(n % 16)]
  }

  /** Every number has a size text. */
  lemma {:induction false} HexRoundTrip(n: nat)
    ensures HexNumber(HexText(n)) == n && Strtol16(HexText(n)) == n
  {
    var s := HexText(n);
    if n < 16 {
      assert s[..0] == "";
    } else {
      HexRoundTrip(n / 16);
      assert s[..|s| - 1] == HexText(n / 16);
    }
    Strtol16Meaning(s, "");
    assert s + "" == s;
  }

  lemma {:induction false} ReadDigitsStops(n: nat, s: string, t: string)
    requires (forall i :: 0 <= i < |s| ==> IsDigit(s[i])) && (t == "" || !IsDigit(t[0]))
    ensures ReadDigits(n, s + t) == ReadDigits(n, s)
    decreases s
  {
    if s == "" {
      assert s + t == t;
    } else {
      assert (s + t)[1..] == s[1..] + t;
      ReadDigitsStops(10 * n + DigitValue(s[0]), s[1..], t);
    }
  }

  lemma {:induction false} SkipLeadingSpaces(lead: string, s: string)
    requires (forall i :: 0 <= i < |lead| ==> IsSpace(lead[i])) && (s == "" || !IsSpace(s[0]))
    ensures SkipSpaces(lead + s) == s
    decreases lead
  {
    if lead == "" {
      assert lead + s == s;
    } else {
      assert (lead + s)[1..] == lead[1..] + s;
      SkipLeadingSpaces(lead[1..], s);
    }
  }

  predicate IsDigitText(s: string) {
    forall i :: 0 <= i < |s| ==> IsDigit(s[i])
  }

  predicate IsNumber(s: string) {
    s != "" && IsDigitText(s)
  }

  /** The number a string of decimal digits writes, by place value from its last digit. */
  function DecimalNumber(s: string): nat
    requires IsDigitText(s)
  {
    if s == "" then 0 else 10 * DecimalNumber(s[..|s| - 1]) + DigitValue(s[|s| - 1])
  }

  lemma {:induction false} ReadDigitsIsNumber(s: string)
    requires IsDigitText(s)
    ensures ReadDigits(0, s) == DecimalNumber(s)
  {
    if s != "" {
      var n := |s| - 1;
      ReadDigitsIsNumber(s[..n]);
      ReadDigitsAppend(0, s[..n], s[n]);
      assert s[..n] + [s[n]] == s;
    }
  }

  /** A length text is worth the digits after its leading white space and one optional sign, by place
      value, leading zeros and all, whatever follows them; without digits there it is worth 0. */
  lemma AtoiMeaning(lead: string, digits: string, t: string)
    requires forall i :: 0 <= i < |lead| ==> IsSpace(lead[i])
    requires IsDigitText(digits) && (t == "" || !IsDigit(t[0]))
    ensures Atoi(lead + ("+" + (digits + t))) == DecimalNumber(digits)
    ensures Atoi(lead + ("-" + (digits + t))) == 0 - DecimalNumber(digits)
    ensures digits != "" || t == "" || (!IsSpace(t[0]) && t[0] != '+' && t[0] != '-') ==>
              Atoi(lead + (digits + t)) == DecimalNumber(digits)
  {
    hide SkipSpaces, ReadDigits, DecimalNumber;
    var s := digits + t;
    ReadDigitsStops(0, digits, t);
    ReadDigitsIsNumber(digits);
    SkipLeadingSpaces(lead, "+" + s);
    SkipLeadingSpaces(lead, "-" + s);
    assert ("+" + s)[1..] == s && ("-" + s)[1..] == s;
    if digits != "" || t == "" || (!IsSpace(t[0]) && t[0] != '+' && t[0] != '-') {
      assert s == "" || (!IsSpace(s[0]) && s[0] != '+' && s[0] != '-');
      SkipLeadingSpaces(lead, s);
    }
  }

  /** In particular printed numbers are read as themselves. */
  lemma DecimalNumberOfPrinted(n: nat)
    ensures DecimalNumber(Decimal(n)) == n
  {
    DecimalRoundTrip(n);
    ReadDigitsIsNumber(Decimal(n));
  }

  // ---- the character classes, spelled out --------------------------------------------------------

  const UPPER := "ABCDEFGHIJKLMNOPQRSTUVWXYZ"
  const LOWER := "abcdefghijklmnopqrstuvwxyz"
  const DIGITS := "0123456789"
  const HEX_LOWER := "0123456789abcdef"
  const HEX_UPPER := "0123456789ABCDEF"

  lemma AlphabetOrder()
    ensures |UPPER| == |LOWER| == 26
    ensures forall k :: 0 <= k < 26 ==> UPPER[k] as int == 65 + k && LOWER[k] as int == 97 + k
  {
  }

  lemma DigitOrder()
    ensures |DIGITS| == 10 && |HEX_LOWER| == |HEX_UPPER| == 16
    ensures forall k :: 0 <= k < 10 ==> DIGITS[k] as int == 48 + k && HEX_LOWER[k] == DIGITS[k] && HEX_UPPER[k] == DIGITS[k]
    ensures forall k :: 10 <= k < 16 ==> HEX_LOWER[k] as int == 87 + k && HEX_UPPER[k] as int == 55 + k
  {
  }

  /** The same character, or the two cases of one letter. */
  predicate SameLetter(a: char, b: char) {
    a == b || exists k :: 0 <= k < 26 && ((a == UPPER[k] && b == LOWER[k]) || (a == LOWER[k] && b == UPPER[k]))
  }

  /** The same text but for the case of letters. */
  predicate SameButCase(a: string, b: string) {
    |a| == |b| && forall i :: 0 <= i < |a| ==> SameLetter(a[i], b[i])
  }

  lemma LowerMeaning(a: char, b: char)
    ensures Lower(a) == Lower(b) <==> SameLetter(a, b)
  {
    if a != b && Lower(a) == Lower(b) {
      if 'A' <= a <= 'Z' { Cases(a, b); } else { Cases(b, a); }
    } else if a != b && SameLetter(a, b) {
      AlphabetOrder();
    }
  }

  lemma Cases(a: char, b: char)
    requires 'A' <= a <= 'Z' && b == Lower(a)
    ensures SameLetter(a, b) && SameLetter(b, a)
  {
    AlphabetOrder();
    hide UPPER, LOWER;
    var k := a as int - 65;
    assert a == UPPER[k] && b == LOWER[k];
  }

  /** Comparison without case, spelled out. */
  lemma EqualsNoCaseMeaning(a: string, b: string)
    ensures EqualsNoCase(a, b) <==> SameButCase(a, b)
  {
    hide Lower, SameLetter;
    forall i | 0 <= i < |a| && i < |b| ensures Lower(a[i]) == Lower(b[i]) <==> SameLetter(a[i], b[i]) {
      LowerMeaning(a[i], b[i]);
    }
  }

  /** A digit is worth its place in the row of digits. */
  lemma DigitMeaning(c: char)
    ensures IsDigit(c) <==> c in DIGITS
    ensures forall k :: 0 <= k < 10 && c == DIGITS[k] ==> DigitValue(c) == k
  {
    DigitOrder();
    if IsDigit(c) {
      assert c == DIGITS[c as int - 48];
    }
  }

  /** A hexadecimal digit is worth its place in the row of either case. */
  lemma HexDigitMeaning(c: char)
    ensures IsHexDigit(c) <==> c in HEX_LOWER || c in HEX_UPPER
    ensures forall k :: 0 <= k < 16 && (c == HEX_LOWER[k] || c == HEX_UPPER[k]) ==> HexDigitValue(c) == k
  {
    DigitOrder();
    if IsHexDigit(c) {
      var k := if IsDigit(c) then c as int - 48 else if c >= 'a' then c as int - 87 else c as int - 55;
      assert c == HEX_LOWER[k] || c == HEX_UPPER[k];
    }
  }

  /** Size texts that differ only in the case of letters have the same size. */
  lemma {:induction false} HexIgnoresCase(n: nat, s: string, t: string)
    requires SameButCase(s, t)
    ensures ReadHexDigits(n, s) == ReadHexDigits(n, t)
    decreases s
  {
    hide SameLetter, SameButCase, HexDigitValue, IsHexDigit;
    SameButCaseTail(s, t);
    if s != "" {
      SameHexDigit(s[0], t[0]);
      if IsHexDigit(s[0]) {
        HexIgnoresCase(16 * n + HexDigitValue(s[0]), s[1..], t[1..]);
      }
    }
  }

  lemma SameButCaseTail(s: string, t: string)
    requires SameButCase(s, t)
    ensures s == "" <==> t == ""
    ensures s != "" ==> SameLetter(s[0], t[0]) && SameButCase(s[1..], t[1..])
  {
    hide SameLetter;
  }

  lemma SameHexDigit(a: char, b: char)
    requires SameLetter(a, b)
    ensures IsHexDigit(a) == IsHexDigit(b) && (IsHexDigit(a) ==> HexDigitValue(a) == HexDigitValue(b))
    ensures a == '0' <==> b == '0'
    ensures a == 'x' || a == 'X' <==> b == 'x' || b == 'X'
  {
    AlphabetOrder();
  }

  lemma SizesIgnoreCase(s: string, t: string)
    requires SameButCase(s, t)
    ensures Strtol16(s) == Strtol16(t)
  {
    hide SameLetter, ReadHexDigits, IsHexDigit;
    HexIgnoresCase(0, s, t);
    if |s| >= 3 {
      SameHexDigit(s[0], t[0]);
      SameHexDigit(s[1], t[1]);
      SameHexDigit(s[2], t[2]);
      HexIgnoresCase(0, s[2..], t[2..]);
    }
  }

  const TOKEN_MARKS := "!#$%&'*+-.^_`|~"
  lemma AlnumMeaning(c: char)
    ensures IsAlnum(c) <==> c in UPPER || c in LOWER || c in DIGITS
    ensures IsAlpha(c) <==> c in UPPER || c in LOWER
  {
    AlphabetOrder();
    DigitOrder();
    hide UPPER, LOWER, DIGITS;
    if 'A' <= c <= 'Z' { assert c == UPPER[c as int - 65]; }
    if 'a' <= c <= 'z' { assert c == LOWER[c as int - 97]; }
    if '0' <= c <= '9' { assert c == DIGITS[c as int - 48]; }
  }

  /** The characters of a token are those of section 3.2.6 of RFC 7230. */
  lemma TokenCharMeaning(c: char)
    ensures IsTokenChar(c) <==> c in UPPER || c in LOWER || c in DIGITS || c in TOKEN_MARKS
  {
    hide UPPER, LOWER, DIGITS, TOKEN_MARKS;
    AlnumMeaning(c);
    if !IsAlnum(c) {
      MarkMeaning(c);
    }
  }

  lemma MarkMeaning(c: char)
    requires !IsAlnum(c)
    ensures IsTokenChar(c) <==> c in TOKEN_MARKS
  {
  }

  const DELIMITERS := "()<>@,;:\\\"/[]?={}"

  /** A printing character of ASCII. */
  predicate IsVisible(c: char) {
    c in UPPER || c in LOWER || c in DIGITS || c in TOKEN_MARKS || c in DELIMITERS
  }

  /** A character of a value is visible, a space, or beyond ASCII. */
  lemma ValueCharMeaning(c: char)
    ensures !IsControl(c) <==> IsVisible(c) || c == ' ' || !IsChar(c)
    ensures IsChar(c) <==> c as int < 128
  {
    hide UPPER, LOWER, DIGITS;
    AlnumMeaning(c);
  }

  /** White space of the C locale. */
  lemma SpaceMeaning(c: char)
    ensures IsSpace(c) <==> c in " \t\n\U{0B}\U{0C}\r"
  {
  }
}
