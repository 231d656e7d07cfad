/** Python's `int(token, 16)` and `int(text, 10)`, and the `%X` formatting that undoes the first. */
module PyInt {
  import opened Text

  function DigitValue(c: char): (v: nat)
    ensures v <= 16
  {
    if '0' <= c <= '9' then c as int - '0' as int
    else if 'a' <= c <= 'f' then c as int - 'a' as int + 10
    else if 'A' <= c <= 'F' then c as int - 'A' as int + 10
    else 16
  }

  predicate IsDigit(c: char, radix: nat) { DigitValue(c) < radix }

  /** A nonempty run of digits in which single underscores may separate digits. */
  function Digits(s: string, radix: nat): Option<nat>
  {
    if s == [] || !IsDigit(s[|s| - 1], radix) then None
    else
      var last := DigitValue(s[|s| - 1]);
      if |s| == 1 then Some(last)
      else
        match Digits(if s[|s| - 2] == '_' then s[..|s| - 2] else s[..|s| - 1], radix)
        case None => None
        case Some(high) => Some(high * radix + last)
  }

  /** `int(text, radix)`: surrounding whitespace, a sign, and for radix 16 a `0x` prefix that one
      underscore may follow. `None` is Python's ValueError. */
  function Parse(text: string, radix: nat): Option<int> { ParseTight(Strip(text), radix) }

  function ParseTight(s: string, radix: nat): Option<int> {
    match Digits(SkipPrefix(Unsigned(s), radix), radix)
    case None => None
    case Some(n) =>
      var value: int := n;
      Some(if s[0] == '-' then -value else value)
  }

  function Unsigned(s: string): string {
    if s != [] && (s[0] == '+' || s[0] == '-') then s[1..] else s
  }

  function SkipPrefix(u: string, radix: nat): string {
    if radix == 16 && |u| >= 2 && u[0] == '0' && (u[1] == 'x' || u[1] == 'X')
    then if |u| > 2 && u[2] == '_' then u[3..] else u[2..]
    else u
  }

  function HexDigit(d: nat): (c: char)
    requires d < 16
    ensures DigitValue(c) == d && ('0' <= c <= '9' || 'A' <= c <= 'F')
  {
    if d < 10 then ('0' as int + d) as char else ('A' as int + d - 10) as char
  }

  /** `b"%X" % n`. */
  function Hex(n: nat): (s: string)
    ensures s != []
  {
    if n < 16 then [HexDigit(n)] else Hex(n / 16) + [HexDigit(n % 16)]
  }

  lemma {:induction false} HexChars(n: nat)
    ensures forall i | 0 <= i < |Hex(n)| :: '0' <= Hex(n)[i] <= '9' || 'A' <= Hex(n)[i] <= 'F'
  {
    if n >= 16 {
      HexChars(n / 16);
    }
  }

  /** HEXDIG in either case (section 2.3 of RFC 5234). */
  predicate IsHexDigit(c: char) { '0' <= c <= '9' || 'a' <= c <= 'f' || 'A' <= c <= 'F' }

  /** `1*HEXDIG`, with any leading zeros. */
  predicate AllHex(s: string) {
    s != [] && forall i | 0 <= i < |s| :: IsHexDigit(s[i])
  }

  function Nibble(c: char): (v: nat)
    requires IsHexDigit(c)
    ensures v < 16
  {
    if c <= '9' then c as int - 0x30
    else if c <= 'F' then c as int - 0x37
    else c as int - 0x57
  }

  /** The number a plain hexadecimal numeral stands for. */
  function HexValue(s: string): nat
    requires s == [] || AllHex(s)
  {
    if s == [] then 0 else 16 * HexValue(s[..|s| - 1]) + Nibble(s[|s| - 1])
  }

  /** On plain hexadecimal numerals int() gives the number they stand for. */
  lemma {:induction false} PlainHexDigits(s: string)
    requires AllHex(s)
    ensures Digits(s, 16) == Some(HexValue(s))
  {
    assert DigitValue(s[|s| - 1]) == Nibble(s[|s| - 1]);
    if |s| > 1 {
      assert s[|s| - 2] != '_';
      PlainHexDigits(s[..|s| - 1]);
    } else {
      assert s[..0] == [];
    }
  }

  /** `%X` prints a numeral of the grammar that stands for the number. */
  lemma {:induction false} HexPrintsTheValue(n: nat)
    ensures AllHex(Hex(n)) && HexValue(Hex(n)) == n
  {
    HexChars(n);
    var high, last := if n < 16 then [] else Hex(n / 16), HexDigit(n % 16);
    assert Hex(n) == high + [last] && (high + [last])[..|high|] == high;
    if n >= 16 {
      HexPrintsTheValue(n / 16);
    }
  }

  /** Printing a length and parsing it back gives the length, for every length. */
  lemma ParseHex(n: nat)
    ensures Parse(Hex(n), 16) == Some(n)
  {
    HexPrintsTheValue(n);
    ParsePlain(Hex(n));
  }

  /** No sign, no `0x` and no whitespace at the ends. */
  predicate Plain(s: string) {
    && s != [] && !IsSpace(s[0]) && !IsSpace(s[|s| - 1])
    && s[0] != '+' && s[0] != '-'
    && (|s| >= 2 ==> s[1] != 'x' && s[1] != 'X')
  }

  lemma ParsePlain(s: string)
    requires AllHex(s)
    ensures Parse(s, 16) == Some(HexValue(s))
    ensures Parse(s + "\r\n", 16) == Some(HexValue(s))
  {
    assert Plain(s);
    PlainHexDigits(s);
    ParseTightPlain(s);
    StripTight(s);
  }

  lemma ParseTightPlain(s: string)
    requires Plain(s) && Digits(s, 16).Some?
    ensures ParseTight(s, 16) == Some(Digits(s, 16).value)
  {
  }

  /** Hexadecimal digits with single underscores between them. */
  predicate Grouped(s: string) {
    && s != [] && s[0] != '_' && s[|s| - 1] != '_'
    && (forall i | 0 <= i < |s| :: IsHexDigit(s[i]) || s[i] == '_')
    && (forall i | 0 < i < |s| :: !(s[i - 1] == '_' && s[i] == '_'))
  }

  function WithoutUnderscores(s: string): string {
    if s == [] then []
    else WithoutUnderscores(s[..|s| - 1]) + if s[|s| - 1] == '_' then [] else [s[|s| - 1]]
  }

  /** Underscores may group digits and do not change the number. */
  lemma GroupedDigits(s: string)
    ensures Digits(s, 16).Some? <==> Grouped(s)
    ensures Grouped(s) ==>
      var plain := WithoutUnderscores(s);
      AllHex(plain) && Digits(s, 16) == Some(HexValue(plain))
  {
    DigitsAreGrouped(s);
    if Grouped(s) {
      GroupedValue(s);
    }
  }

  lemma {:induction false} DigitsAreGrouped(s: string)
    ensures Digits(s, 16).Some? <==> Grouped(s)
  {
    if |s| > 1 && IsHexDigit(s[|s| - 1]) {
      var high := if s[|s| - 2] == '_' then s[..|s| - 2] else s[..|s| - 1];
      GroupedRest(s, high);
      DigitsAreGrouped(high);
    }
  }

  lemma {:induction false} GroupedValue(s: string)
    requires Grouped(s)
    ensures AllHex(WithoutUnderscores(s))
    ensures Digits(s, 16) == Some(HexValue(WithoutUnderscores(s)))
  {
    hide AllHex, HexValue;
    var n := |s| - 1;
    OneMoreHexDigit(WithoutUnderscores(s[..n]), s[n]);
    if n == 0 {
      assert s[..0] == [];
    } else {
      var high := if s[n - 1] == '_' then s[..n - 1] else s[..n];
      GroupedRest(s, high);
      GroupedValue(high);
    }
  }

  lemma OneMoreHexDigit(front: string, c: char)
    requires IsHexDigit(c)
    ensures DigitValue(c) == Nibble(c)
    ensures front == [] || AllHex(front) ==>
      && AllHex(front + [c])
      && HexValue(front + [c]) == 16 * (if front == [] then 0 else HexValue(front)) + Nibble(c)
  {
    assert (front + [c])[..|front|] == front;
  }

  lemma GroupedRest(s: string, high: string)
    requires |s| > 1 && IsHexDigit(s[|s| - 1])
    requires high == if s[|s| - 2] == '_' then s[..|s| - 2] else s[..|s| - 1]
    ensures Grouped(s) <==> Grouped(high)
    ensures WithoutUnderscores(s[..|s| - 1]) == WithoutUnderscores(high)
  {
    var n := |s| - 1;
    assert s[..n][..n - 1] == s[..n - 1];
    assert high <= s;
    if Grouped(high) {
      assert forall i | 0 <= i < |high| :: s[i] == high[i];
    }
  }

  const SIGNS: set<string> := {"", "+", "-"}
  const PREFIXES: set<string> := {"", "0x", "0X", "0x_", "0X_"}

  /** One way of reading a token: a sign, a prefix, and digits with single underscores. */
  ghost predicate ReadsAs(token: string, sign: string, prefix: string, digits: string) {
    token == sign + prefix + digits && sign in SIGNS && prefix in PREFIXES && Grouped(digits)
  }

  /** Exactly which size tokens int() accepts, and what each stands for. The RFC's `1*HEXDIG` is the
      case without sign, prefix and underscores. */
  lemma AcceptedSizes(text: string)
    ensures Parse(text, 16).Some? <==> exists s, p, d :: ReadsAs(Strip(text), s, p, d)
    ensures forall s, p, d :: ReadsAs(Strip(text), s, p, d) ==>
      AllHex(WithoutUnderscores(d))
      && Parse(text, 16) == Some(Signed(s == "-", HexValue(WithoutUnderscores(d))))
  {
    hide Grouped, HexValue, AllHex, WithoutUnderscores, Digits, Strip, Unsigned, SkipPrefix;
    var token := Strip(text);
    forall s, p, d | ReadsAs(token, s, p, d)
      ensures AllHex(WithoutUnderscores(d))
      ensures Parse(text, 16) == Some(Signed(s == "-", HexValue(WithoutUnderscores(d))))
    {
      GroupedDigits(d);
      ReadingIsUnique(token, s, p, d);
    }
    if Parse(text, 16).Some? {
      var u := Unsigned(token);
      var v := SkipPrefix(u, 16);
      GroupedDigits(v);
      var s := SignOf(token);
      var p := PrefixOf(u);
      assert token == s + p + v;
      assert ReadsAs(token, s, p, v);
    }
  }

  lemma SignOf(token: string) returns (s: string)
    ensures s in SIGNS && token == s + Unsigned(token)
  {
    s := if Unsigned(token) == token then "" else [token[0]];
  }

  lemma PrefixOf(u: string) returns (p: string)
    ensures p in PREFIXES && u == p + SkipPrefix(u, 16)
  {
    if SkipPrefix(u, 16) == u {
      p := "";
    } else if |u| > 2 && u[2] == '_' {
      p := if u[1] == 'x' then "0x_" else "0X_";
    } else {
      p := if u[1] == 'x' then "0x" else "0X";
    }
  }

  function Signed(negative: bool, n: int): int { if negative then -n else n }

  lemma ReadingIsUnique(token: string, s: string, p: string, d: string)
    requires ReadsAs(token, s, p, d)
    ensures SkipPrefix(Unsigned(token), 16) == d
    ensures token != [] && (token[0] == '-' <==> s == "-")
  {
    hide Grouped, SkipPrefix, Unsigned;
    assert token == s + (p + d);
    PrefixIsSkipped(p, d);
    UnsignedReading(token, s, p + d);
  }

  lemma UnsignedReading(token: string, s: string, rest: string)
    requires token == s + rest && s in SIGNS
    requires rest != [] && rest[0] != '+' && rest[0] != '-'
    ensures Unsigned(token) == rest && (token[0] == '-' <==> s == "-")
  {
    assert s == "" || s == "+" || s == "-";
  }

  lemma PrefixIsSkipped(p: string, d: string)
    requires p in PREFIXES && Grouped(d)
    ensures p + d != [] && (p + d)[0] != '+' && (p + d)[0] != '-'
    ensures SkipPrefix(p + d, 16) == d
  {
    hide Grouped;
    assert p == "" || p == "0x" || p == "0X" || p == "0x_" || p == "0X_";
    GroupedEnds(d);
    if |p| == 3 {
      assert (p + d)[3..] == d;
    } else if |p| == 2 {
      assert (p + d)[2..] == d;
    } else {
      assert p + d == d;
    }
  }

  lemma GroupedEnds(d: string)
    requires Grouped(d)
    ensures d != [] && d[0] != '_' && d[0] != '+' && d[0] != '-'
    ensures |d| > 1 ==> d[1] != 'x' && d[1] != 'X'
  {
  }

  /** Three tokens that are not `1*HEXDIG`. */
  lemma MoreThanHexDigits()
    ensures Parse("-5", 16) == Some(-5)
    ensures Parse("0x_1f", 16) == Some(31)
    ensures Parse("1_0", 16) == Some(16) && Parse("1__0", 16) == None
  {
    StripTight("-5");
    StripTight("0x_1f");
    StripTight("1_0");
    StripTight("1__0");
    Slices();
  }

  lemma MinusFive()
    ensures Parse("-5", 10) == Some(-5)
  {
    StripTight("-5");
    assert "-5"[1..] == "5";
  }

  lemma Slices()
    ensures "-5"[1..] == "5" && "0x_1f"[3..] == "1f" && "1f"[..1] == "1"
    ensures "1_0"[..1] == "1" && "1__0"[..2] == "1_"
  {
  }

  /** The value of a plain decimal numeral, the only form section 3.3.2 of RFC 7230 allows. */
  function Decimal(s: string): Option<nat> {
    if s != [] && AllDecimal(s) then Some(DecimalValue(s)) else None
  }

  predicate AllDecimal(s: string) {
    forall i | 0 <= i < |s| :: '0' <= s[i] <= '9'
  }

  function DecimalValue(s: string): nat
    requires AllDecimal(s)
  {
    if s == [] then 0
    else 10 * DecimalValue(s[..|s| - 1]) + (s[|s| - 1] as int - '0' as int)
  }

  lemma {:induction false} DecimalDigits(s: string)
    requires s != [] && AllDecimal(s)
    ensures Digits(s, 10) == Some(DecimalValue(s))
  {
    if |s| > 1 {
      DecimalDigits(s[..|s| - 1]);
    } else {
      assert s[..0] == [];
    }
  }

  /** On a plain decimal numeral with optional whitespace around it Python and the RFC agree. */
  lemma ParseDecimal(text: string)
    requires Decimal(Trim(text)).Some?
    ensures Parse(text, 10) == Some(Decimal(Trim(text)).value)
  {
    StripIsTrim(text);
    DecimalDigits(Trim(text));
  }

  function DecimalDigit(d: nat): (c: char)
    requires d < 10
    ensures '0' <= c <= '9' && c as int == 0x30 + d
  {
    (0x30 + d) as char
  }

  /** `"%d" % n`. */
  function Numeral(n: nat): (s: string)
    ensures s != []
  {
    if n < 10 then [DecimalDigit(n)] else Numeral(n / 10) + [DecimalDigit(n % 10)]
  }

  /** Every number is read back from its decimal numeral. */
  lemma {:induction false} ParseNumeral(n: nat)
    ensures Decimal(Numeral(n)) == Some(n)
    ensures Parse(Numeral(n), 10) == Some(n)
  {
    hide Parse;
    DecimalOfNumeral(n);
    var s := Numeral(n);
    TrimTight(s);
    ParseDecimal(s);
  }

  lemma {:induction false} DecimalOfNumeral(n: nat)
    ensures AllDecimal(Numeral(n)) && DecimalValue(Numeral(n)) == n
  {
    var high := if n < 10 then [] else Numeral(n / 10);
    var last := DecimalDigit(n % 10);
    assert Numeral(n) == high + [last] && (high + [last])[..|high|] == high;
    if n >= 10 {
      DecimalOfNumeral(n / 10);
    }
  }

  lemma ShortNumerals()
    ensures Decimal("3") == Some(3) && Decimal("12") == Some(12) && Parse("12", 10) == Some(12)
  {
    assert "3"[..0] == [] && "12"[..1] == "1" && "1"[..0] == [];
    TrimTight("12");
    ParseDecimal("12");
  }

  /** Letters stand for the same digits in both cases. */
  lemma {:induction false} HexIgnoresCase(s: string)
    requires AllHex(s)
    ensures AllHex(Lower(s)) && HexValue(Lower(s)) == HexValue(s)
  {
    var n := |s| - 1;
    assert forall i | 0 <= i < |s| :: Lower(s)[i] == LowerChar(s[i]) && IsHexDigit(Lower(s)[i]);
    assert Nibble(Lower(s)[n]) == Nibble(s[n]);
    assert Lower(s)[..n] == Lower(s[..n]);
    if n > 0 {
      HexIgnoresCase(s[..n]);
    }
  }
}
