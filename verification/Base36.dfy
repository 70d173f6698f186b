/** The base-36 numbers of the database types: printing into a tight buffer, and parsing with `strtol`. */
module Base36 {

  const LONG_MAX: int := 0x7FFF_FFFF_FFFF_FFFF
  const LONG_MIN: int := -0x8000_0000_0000_0000
  const INT_MAX: int := 0x7FFF_FFFF
  const INT_MIN: int := -0x8000_0000

  datatype Result<T> = Ok(value: T) | OutOfRange | SyntaxError

  /** `ext_orc15_digits` */
  const DIGITS: string := "0123456789abcdefghijklmnopqrstuvwxyz"

  function Digit(v: nat): char
    requires v < 36
  {
    DIGITS[v]
  }

  // ----- numbers as text -----

  /** The shortest text of a number, and nothing but lower-case digits. */
  function Digits(n: nat): string {
    if n < 36 then [Digit(n)] else Digits(n / 36) + [Digit(n % 36)]
  }

  function Printed(n: int): string {
    if n < 0 then "-" + Digits(-n) else Digits(n)
  }

  predicate IsDigit(c: char) {
    '0' <= c <= '9' || 'a' <= c <= 'z' || 'A' <= c <= 'Z'
  }

  function DigitValue(c: char): (v: nat)
    requires IsDigit(c)
    ensures v < 36
  {
    if '0' <= c <= '9' then c as nat - '0' as nat
    else if 'a' <= c <= 'z' then c as nat - 'a' as nat + 10
    else c as nat - 'A' as nat + 10
  }

  predicate AllDigits(s: string) {
    forall c | c in s :: IsDigit(c)
  }

  function Number(s: string): nat
    requires AllDigits(s)
  {
    if |s| == 0 then 0 else Number(s[..|s| - 1]) * 36 + DigitValue(s[|s| - 1])
  }

  lemma {:induction false} DigitsAreDigits(n: nat)
    ensures |Digits(n)| > 0 && AllDigits(Digits(n)) && Number(Digits(n)) == n
  {
    if n >= 36 {
      DigitsAreDigits(n / 36);
      assert Digits(n)[..|Digits(n)| - 1] == Digits(n / 36);
      DigitOf(n % 36);
      SplitBy36(n);
    } else {
      DigitOf(n);
      assert Digits(n)[..0] == [];
    }
  }

  /** A value has one digit in either case. */
  lemma DigitValues(v: nat)
    requires v < 36
    ensures var lower := if v < 10 then '0' + v as char else 'a' + (v - 10) as char;
            var upper := if v < 10 then '0' + v as char else 'A' + (v - 10) as char;
            && Digit(v) == lower
            && forall c: char :: (IsDigit(c) && DigitValue(c) == v <==> c == lower || c == upper)
  {
  }

  lemma DigitOf(v: nat)
    requires v < 36
    ensures IsDigit(Digit(v)) && DigitValue(Digit(v)) == v
  {
    hide Digit, IsDigit, DigitValue;
    DigitValues(v);
  }

  lemma SplitBy36(n: nat)
    ensures n / 36 * 36 + n % 36 == n
  {
  }

  function Power36(k: nat): nat {
    if k == 0 then 1 else 36 * Power36(k - 1)
  }

  /** k digits are enough exactly for the numbers below 36^k. */
  lemma {:induction false} DigitCount(n: nat, k: nat)
    requires k > 0
    ensures |Digits(n)| <= k <==> n < Power36(k)
  {
    if n >= 36 && k > 1 {
      DigitCount(n / 36, k - 1);
      assert n / 36 < Power36(k - 1) <==> n < 36 * Power36(k - 1);
    } else if n < 36 {
      PowerPositive(k - 1);
    } else {
      DigitsAreDigits(n / 36);
      assert Power36(0) == 1;
    }
  }

  lemma {:induction false} PowerPositive(k: nat)
    ensures Power36(k) >= 1
  {
    if k > 0 {
      PowerPositive(k - 1);
    }
  }

  /** Thirteen digits hold every 64-bit magnitude, six every 32-bit one. */
  lemma MagnitudesFit(n: nat)
    ensures n <= LONG_MAX ==> |Digits(n)| <= 13
    ensures n <= INT_MAX ==> |Digits(n)| <= 6
  {
    assert Power36(6) == 2176782336 by {
      assert Power36(3) == 46656;
    }
    assert Power36(13) == 2176782336 * 2176782336 * 36 by {
      assert Power36(9) == 2176782336 * 46656;
      assert Power36(12) == 2176782336 * 2176782336;
    }
    DigitCount(n, 13);
    DigitCount(n, 6);
  }

  // ----- printing -----

  /** One digit more of the number stands in the buffer. */
  lemma NextDigit(arg: nat, text: string, whole: string)
    requires whole == Digits(arg) + text
    ensures Digit(arg % 36) == Digits(arg)[|Digits(arg)| - 1]
    ensures whole == (if arg / 36 == 0 then [] else Digits(arg / 36)) + ([Digit(arg % 36)] + text)
  {
  }

  /** The do-while loop: digits are written backwards, ending in front of `end`. */
  method WriteDigits(n: nat, buffer: array<char>, end: nat) returns (offset: nat)
    requires |Digits(n)| <= end <= buffer.Length
    modifies buffer
    ensures offset <= end && buffer[offset..end] == Digits(n)
    ensures buffer[end..] == old(buffer[end..])
  {
    hide Digits;
    var arg := n;
    offset := end;
    DigitsNotEmpty(arg);
    while true
      invariant offset <= end <= buffer.Length
      invariant Digits(n) == Digits(arg) + buffer[offset..end] && |Digits(arg)| > 0
      invariant buffer[end..] == old(buffer[end..])
      decreases arg
    {
      NextDigit(arg, buffer[offset..end], Digits(n));
      ghost var text := buffer[offset..end];
      offset := offset - 1;
      buffer[offset] := Digit(arg % 36);
      assert buffer[offset..end] == [Digit(arg % 36)] + text;
      if arg / 36 == 0 {
        break;
      }
      arg := arg / 36;
      DigitsNotEmpty(arg);
    }
  }

  /**
   * Printing into a buffer of `size` characters: the terminating zero, the digits and the sign are written from the end
   * backwards, and the text starts at the last character written.
   */
  method Format(n: int, size: nat) returns (text: string)
    requires |Printed(n)| + 1 <= size
    ensures text == Printed(n)
  {
    hide Digits;
    var buffer := new char[size];
    var arg, neg := n, false;
    if arg < 0 {
      arg := -arg;
      neg := true;
    }
    var end := size - 1;
    buffer[end] := '\0';
    var offset := WriteDigits(arg, buffer, end);
    if neg {
      offset := offset - 1;
      buffer[offset] := '-';
      assert buffer[offset..end] == ['-'] + buffer[offset + 1..end];
    }
    text := buffer[offset..end];
  }

  lemma DigitsNotEmpty(n: nat)
    ensures |Digits(n)| > 0
  {
  }

  /** `big_ext_orc15_out`: thirteen digits, a sign and the terminating zero in fifteen characters. */
  method BigOut(arg: int) returns (r: Result<string>)
    requires LONG_MIN <= arg <= LONG_MAX
    ensures r == if LONG_MIN < arg < LONG_MAX then Ok(Printed(arg)) else OutOfRange
  {
    if arg <= LONG_MIN || arg >= LONG_MAX {
      return OutOfRange;
    }
    PrintedFits(arg);
    var text := Format(arg, 15);
    r := Ok(text);
  }

  /** `ext_orc15_out`: the negation of INT_MIN is not an int32. */
  method Out(arg: int) returns (text: string)
    requires INT_MIN < arg <= INT_MAX
    ensures text == Printed(arg)
  {
    PrintedFits(arg);
    text := Format(arg, 8);
  }

  /** The buffers are as long as they have to be, and no longer: the smallest numbers fill them. */
  lemma PrintedFits(arg: int)
    ensures LONG_MIN < arg <= LONG_MAX ==> |Printed(arg)| + 1 <= 15
    ensures INT_MIN < arg <= INT_MAX ==> |Printed(arg)| + 1 <= 8
    ensures |Printed(LONG_MIN + 1)| + 1 == 15 && |Printed(INT_MIN + 1)| + 1 == 8
  {
    hide Digits;
    MagnitudesFit(if arg < 0 then -arg else arg);
    MagnitudesFit(LONG_MAX);
    MagnitudesFit(INT_MAX);
    LargestMagnitudes();
  }

  lemma LargestMagnitudes()
    ensures |Digits(LONG_MAX)| > 12 && |Digits(INT_MAX)| > 5
  {
    hide Digits;
    assert Power36(5) == 60466176 by {
      assert Power36(3) == 46656;
    }
    assert Power36(12) == 2176782336 * 2176782336 by {
      assert Power36(6) == 2176782336;
      assert Power36(9) == 2176782336 * 46656;
    }
    DigitCount(LONG_MAX, 12);
    DigitCount(INT_MAX, 5);
  }

  // ----- parsing -----

  /** `isspace` in the C locale. */
  predicate IsSpace(c: char) {
    c == ' ' || '\t' <= c <= '\r'
  }

  function SkipSpaces(s: string): string {
    if |s| > 0 && IsSpace(s[0]) then SkipSpaces(s[1..]) else s
  }

  /** How many digits the text starts with. */
  function LeadingDigits(s: string): (k: nat)
    ensures k <= |s| && AllDigits(s[..k])
    ensures k < |s| ==> !IsDigit(s[k])
  {
    if |s| > 0 && IsDigit(s[0]) then
      assert forall k | 0 <= k <= |s| - 1 :: s[..k + 1] == [s[0]] + s[1..][..k];
      1 + LeadingDigits(s[1..])
    else 0
  }

  function Clamp(n: int): int {
    if n < LONG_MIN then LONG_MIN else if n > LONG_MAX then LONG_MAX else n
  }

  predicate HasSign(s: string) {
    |s| > 0 && (s[0] == '-' || s[0] == '+')
  }

  datatype Parsed = Parsed(value: int, rest: string)

  /**
   * `strtol` with base 36, section 7.22.1.4 of ISO/IEC 9899:2011: white space, a sign, digits of either case; a number
   * out of range gives the nearest one in range, and text that is no number gives zero and is left whole.
   */
  function Strtol(s: string): Parsed {
    var t := SkipSpaces(s);
    var u := if HasSign(t) then t[1..] else t;
    var k := LeadingDigits(u);
    if k == 0 then Parsed(0, s)
    else Parsed(Clamp(if HasSign(t) && t[0] == '-' then 0 - Number(u[..k]) else Number(u[..k])), u[k..])
  }

  /** `big_ext_orc15_in`: range before syntax, and the limits themselves count as out of range. */
  function BigIn(str: string): Result<int> {
    var p := Strtol(str);
    if p.value == LONG_MIN || p.value == LONG_MAX then OutOfRange
    else if p.rest != "" || |str| == 0 then SyntaxError
    else Ok(p.value)
  }

  /** `ext_orc15_in` */
  function In(str: string): Result<int> {
    var p := Strtol(str);
    if p.value < INT_MIN || p.value > INT_MAX then OutOfRange
    else if p.rest != "" || |str| == 0 then SyntaxError
    else Ok(p.value)
  }

  // ----- what is accepted -----

  /** The text of a number: spaces, a sign, digits. */
  predicate Numeral(space: string, sign: string, digits: string) {
    && (forall c | c in space :: IsSpace(c))
    && (sign == "" || sign == "+" || sign == "-")
    && |digits| > 0 && AllDigits(digits)
  }

  function NumeralValue(sign: string, digits: string): int
    requires AllDigits(digits)
  {
    if sign == "-" then 0 - Number(digits) else Number(digits)
  }

  lemma {:induction false} SkipsAllSpaces(space: string, rest: string)
    requires forall c | c in space :: IsSpace(c)
    requires |rest| > 0 && !IsSpace(rest[0])
    ensures SkipSpaces(space + rest) == rest
  {
    if |space| == 0 {
      assert space + rest == rest;
    } else {
      assert (space + rest)[1..] == space[1..] + rest;
      SkipsAllSpaces(space[1..], rest);
    }
  }

  predicate EndsDigits(rest: string) {
    |rest| > 0 ==> !IsDigit(rest[0])
  }

  lemma {:induction false} TakesAllDigits(digits: string, rest: string)
    requires AllDigits(digits) && EndsDigits(rest)
    ensures LeadingDigits(digits + rest) == |digits|
  {
    hide IsDigit;
    if |digits| == 0 {
      assert digits + rest == rest;
    } else {
      assert (digits + rest)[1..] == digits[1..] + rest;
      TakesAllDigits(digits[1..], rest);
    }
  }

  lemma DigitIsNoSpace(c: char)
    requires IsDigit(c) || c == '-' || c == '+'
    ensures !IsSpace(c) && (IsDigit(c) ==> c != '-' && c != '+')
  {
  }

  /** Text that starts with a numeral is read as its number, as far as its digits go. */
  lemma StrtolOfNumeral(space: string, sign: string, digits: string, rest: string)
    requires Numeral(space, sign, digits) && EndsDigits(rest)
    ensures Strtol(space + sign + digits + rest) == Parsed(Clamp(NumeralValue(sign, digits)), rest)
  {
    hide Number, Clamp, IsSpace, IsDigit, SkipSpaces, LeadingDigits;
    var body := sign + (digits + rest);
    DigitIsNoSpace(digits[0]);
    DigitIsNoSpace(body[0]);
    assert space + sign + digits + rest == space + body;
    SkipsAllSpaces(space, body);
    TakesAllDigits(digits, rest);
    assert (if HasSign(body) then body[1..] else body) == digits + rest;
    assert (digits + rest)[..|digits|] == digits;
  }

  lemma {:induction false} SpacesSkipped(s: string) returns (space: string)
    ensures (forall c | c in space :: IsSpace(c)) && s == space + SkipSpaces(s)
  {
    if |s| > 0 && IsSpace(s[0]) {
      var more := SpacesSkipped(s[1..]);
      space := [s[0]] + more;
    } else {
      space := "";
    }
  }

  /** Text of which something is consumed starts with a numeral. */
  lemma ConsumedIsNumeral(s: string) returns (space: string, sign: string, digits: string, rest: string)
    requires Strtol(s).rest != s
    ensures Numeral(space, sign, digits) && s == space + sign + digits + rest && EndsDigits(rest)
    ensures Strtol(s) == Parsed(Clamp(NumeralValue(sign, digits)), rest)
  {
    hide Number, Clamp, IsSpace, IsDigit, SkipSpaces, LeadingDigits;
    space := SpacesSkipped(s);
    var t := SkipSpaces(s);
    sign := if HasSign(t) then t[..1] else "";
    var u := if HasSign(t) then t[1..] else t;
    digits, rest := u[..LeadingDigits(u)], u[LeadingDigits(u)..];
    assert t == sign + u;
    SideBySide(space, sign, u, LeadingDigits(u));
  }

  lemma SideBySide(space: string, sign: string, u: string, k: nat)
    requires k <= |u|
    ensures space + (sign + u) == space + sign + u[..k] + u[k..]
  {
  }

  ghost predicate Denotes(s: string, n: int) {
    exists space, sign, digits ::
      Numeral(space, sign, digits) && s == space + sign + digits && n == NumeralValue(sign, digits)
  }

  /** A text is read as n exactly when it is a numeral of n and n is strictly between the limits. */
  lemma BigInReadsNumerals(s: string, n: int)
    ensures BigIn(s) == Ok(n) <==> Denotes(s, n) && LONG_MIN < n < LONG_MAX
  {
    if BigIn(s) == Ok(n) {
      var space, sign, digits, rest := ConsumedIsNumeral(s);
      assert s == space + sign + digits;
    }
    if Denotes(s, n) {
      var space, sign, digits :|
        Numeral(space, sign, digits) && s == space + sign + digits && n == NumeralValue(sign, digits);
      StrtolOfNumeral(space, sign, digits, "");
      assert s + "" == s;
    }
  }

  lemma InReadsNumerals(s: string, n: int)
    ensures In(s) == Ok(n) <==> Denotes(s, n) && INT_MIN <= n <= INT_MAX
  {
    if In(s) == Ok(n) {
      var space, sign, digits, rest := ConsumedIsNumeral(s);
      assert s == space + sign + digits;
    }
    if Denotes(s, n) {
      var space, sign, digits :|
        Numeral(space, sign, digits) && s == space + sign + digits && n == NumeralValue(sign, digits);
      StrtolOfNumeral(space, sign, digits, "");
      assert s + "" == s;
    }
  }

  lemma PrintedDenotes(n: int)
    ensures Denotes(Printed(n), n)
  {
    hide Digits, Number, IsDigit, IsSpace;
    var m := if n < 0 then -n else n;
    DigitsAreDigits(m);
    var sign := if n < 0 then "-" else "";
    assert Numeral("", sign, Digits(m));
    assert Printed(n) == "" + sign + Digits(m);
  }

  /** What is printed reads back as the number printed. */
  lemma BigRoundTrip(n: int)
    ensures BigIn(Printed(n)) == Ok(n) <==> LONG_MIN < n < LONG_MAX
  {
    PrintedDenotes(n);
    BigInReadsNumerals(Printed(n), n);
  }

  lemma RoundTrip(n: int)
    ensures In(Printed(n)) == Ok(n) <==> INT_MIN <= n <= INT_MAX
  {
    PrintedDenotes(n);
    InReadsNumerals(Printed(n), n);
  }

  lemma SpacesAre(c: char)
    ensures IsSpace(c) <==> c as int == 32 || 9 <= c as int <= 13
  {
  }

  /** Spaces in front of a number and a plus sign are no part of it. */
  lemma SpacesAndPlusAreRead(space: string, n: int)
    requires forall c | c in space :: c as int == 32 || 9 <= c as int <= 13
    ensures BigIn(space + Printed(n)) == Ok(n) <==> -9223372036854775808 < n < 9223372036854775807
    ensures n >= 0 ==> (BigIn(space + "+" + Printed(n)) == Ok(n) <==> n < 9223372036854775807)
  {
    hide Digits, Number, IsDigit, BigIn;
    var m := if n < 0 then -n else n;
    DigitsAreDigits(m);
    var sign := if n < 0 then "-" else "";
    assert space + Printed(n) == space + sign + Digits(m);
    assert Numeral(space, sign, Digits(m)) && Numeral(space, "+", Digits(m));
    assert Denotes(space + Printed(n), n);
    assert n >= 0 ==> Denotes(space + "+" + Printed(n), n);
    BigInReadsNumerals(space + Printed(n), n);
    BigInReadsNumerals(space + "+" + Printed(n), n);
  }

  // ----- which text is printed -----

  /** A digit as it is printed. */
  predicate IsLowerDigit(c: char) {
    '0' <= c <= '9' || 'a' <= c <= 'z'
  }

  /** No other text of the number is shorter, and letters are lower case. */
  predicate Plain(digits: string) {
    && |digits| > 0
    && (forall c | c in digits :: IsLowerDigit(c)) && (digits[0] == '0' ==> |digits| == 1)
  }

  lemma {:induction false} DigitsArePlain(n: nat)
    ensures Plain(Digits(n)) && (Digits(n)[0] == '0' ==> n == 0)
  {
    if n >= 36 {
      DigitsArePlain(n / 36);
      DigitValues(n % 36);
    } else {
      DigitValues(n);
    }
  }

  lemma LowerDigit(c: char)
    requires IsLowerDigit(c)
    ensures IsDigit(c) && Digit(DigitValue(c)) == c && (c == '0' <==> DigitValue(c) == 0)
  {
    DigitValues(DigitValue(c));
  }

  lemma LowerAreDigits(digits: string)
    requires Plain(digits)
    ensures |digits| > 0 && AllDigits(digits) && IsLowerDigit(digits[|digits| - 1])
    ensures |digits| > 1 ==> Plain(digits[..|digits| - 1]) && digits[..|digits| - 1][0] == digits[0] != '0'
  {
  }

  lemma DigitBehind(n: nat, v: nat)
    requires n > 0 && v < 36
    ensures Digits(n * 36 + v) == Digits(n) + [Digit(v)]
  {
    hide Digit;
    assert (n * 36 + v) / 36 == n && (n * 36 + v) % 36 == v;
  }

  lemma {:induction false} PlainIsDigits(digits: string)
    requires Plain(digits)
    ensures AllDigits(digits) && Digits(Number(digits)) == digits
    ensures digits[0] != '0' ==> Number(digits) > 0
  {
    hide Digits, Digit, DigitValue, IsDigit, IsLowerDigit, Plain;
    LowerAreDigits(digits);
    var last := digits[|digits| - 1];
    var front := digits[..|digits| - 1];
    LowerDigit(last);
    if |digits| > 1 {
      PlainIsDigits(front);
      DigitBehind(Number(front), DigitValue(last));
    } else {
      OneDigit(DigitValue(last));
      assert Number(front) == 0;
    }
  }

  lemma OneDigit(v: nat)
    requires v < 36
    ensures Digits(v) == [Digit(v)]
  {
    hide Digit;
  }

  /** A number has one text: a sign if it is negative, and lower-case digits with no zero in front. */
  lemma PrintedIff(n: int, text: string)
    ensures text == Printed(n) <==>
              exists digits :: Plain(digits) && AllDigits(digits)
                            && Number(digits) == (if n < 0 then -n else n)
                            && text == (if n < 0 then "-" else "") + digits
  {
    hide Digits, Number, IsDigit, Plain;
    var m := if n < 0 then -n else n;
    DigitsArePlain(m);
    DigitsAreDigits(m);
    forall digits | Plain(digits) && AllDigits(digits) && Number(digits) == m
      ensures digits == Digits(m)
    {
      PlainIsDigits(digits);
    }
  }

  /** What stands in a printed text. */
  lemma PrintedCharacters(n: int, i: nat)
    requires i < |Printed(n)|
    ensures var c := Printed(n)[i];
            (i == 0 && n < 0 && c == '-') || '0' <= c <= '9' || 'a' <= c <= 'z'
  {
    hide Digits;
    var m := if n < 0 then -n else n;
    DigitsArePlain(m);
    assert i > 0 || n >= 0 ==> Printed(n)[i] in Digits(m);
  }

  // ----- what is refused -----

  /** Spaces, a sign and digits stand in front, the digits as far as they go: the number they denote. */
  ghost predicate LeadsWith(s: string, n: int) {
    exists space, sign, digits, rest ::
      && Numeral(space, sign, digits) && EndsDigits(rest)
      && s == space + sign + digits + rest && n == NumeralValue(sign, digits)
  }

  lemma StrtolOfLeading(s: string, n: int)
    requires LeadsWith(s, n)
    ensures Strtol(s).value == Clamp(n) && Strtol(s).rest != s
  {
    var space, sign, digits, rest :|
      && Numeral(space, sign, digits) && EndsDigits(rest)
      && s == space + sign + digits + rest && n == NumeralValue(sign, digits);
    StrtolOfNumeral(space, sign, digits, rest);
  }

  lemma DenotedLeads(s: string, n: int)
    requires Denotes(s, n)
    ensures LeadsWith(s, n) && Strtol(s).rest == "" && |s| > 0
  {
    var space, sign, digits :|
      Numeral(space, sign, digits) && s == space + sign + digits && n == NumeralValue(sign, digits);
    assert space + sign + digits + "" == s;
    StrtolOfNumeral(space, sign, digits, "");
  }

  /** What `strtol` makes of a text, numeral or not. */
  lemma StrtolMeans(s: string) returns (n: int)
    ensures Strtol(s).rest != s ==> LeadsWith(s, n) && (Strtol(s).rest == "" <==> Denotes(s, n))
    ensures Strtol(s).rest == s ==> Strtol(s).value == 0
    ensures forall k: int :: LeadsWith(s, k) ==> Strtol(s).value == Clamp(k) && Strtol(s).rest != s
    ensures forall k: int :: Denotes(s, k) ==> Strtol(s).rest == "" && |s| > 0
  {
    hide Strtol, Clamp, EndsDigits, Number, IsSpace, IsDigit;
    n := 0;
    if Strtol(s).rest != s {
      var space, sign, digits, rest := ConsumedIsNumeral(s);
      n := NumeralValue(sign, digits);
      if rest == "" {
        assert s == space + sign + digits;
      }
    }
    forall k: int | LeadsWith(s, k)
      ensures Strtol(s).value == Clamp(k) && Strtol(s).rest != s
    {
      StrtolOfLeading(s, k);
    }
    forall k: int | Denotes(s, k)
      ensures Strtol(s).rest == "" && |s| > 0
    {
      DenotedLeads(s, k);
    }
    NothingRead(s);
  }

  lemma NothingRead(s: string)
    ensures Strtol(s).rest == s ==> Strtol(s).value == 0
  {
    hide SkipSpaces, IsSpace;
    var space := SpacesSkipped(s);
  }

  /**
   Out of range is said exactly of a text whose leading numeral denotes a number that is not strictly between the
   limits, whatever follows it; and of the others a syntax error exactly if they are no numerals.
   */
  lemma BigInRefusesIff(s: string)
    ensures var beyond := exists n :: LeadsWith(s, n) && !(-9223372036854775808 < n < 9223372036854775807);
            && (BigIn(s) == OutOfRange <==> beyond)
            && (BigIn(s) == SyntaxError <==> !beyond && !exists n :: Denotes(s, n))
  {
    hide Strtol, LeadsWith, Denotes;
    var n := StrtolMeans(s);
  }

  lemma InRefusesIff(s: string)
    ensures var beyond := exists n :: LeadsWith(s, n) && !(-2147483648 <= n <= 2147483647);
            && (In(s) == OutOfRange <==> beyond)
            && (In(s) == SyntaxError <==> !beyond && !exists n :: Denotes(s, n))
  {
    hide Strtol, LeadsWith, Denotes;
    var n := StrtolMeans(s);
  }
}
