/** Unsigned numbers as text: `strtoull_s` in any base, and the decimal printer `size_tToString`. */
module NumberText {
  import opened Common

  const ULLONG_MAX := 0xFFFF_FFFF_FFFF_FFFF

  // ----- digits -----

  /** DIGIT_VAL: letters stand for 10 to 35 in either case; other characters have no value. */
  function DigitVal(c: char): (d: int)
    ensures -1 <= d < 36
  {
    if '0' <= c <= '9' then c as int - '0' as int
    else if 'a' <= c <= 'z' then c as int - 'a' as int + 10
    else if 'A' <= c <= 'Z' then c as int - 'A' as int + 10
    else -1
  }

  /** The character for a value. */
  function Digit(d: nat, capital: bool): char
    requires d < 36
  {
    ((if d < 10 then '0' as int else if capital then 'A' as int - 10 else 'a' as int - 10) + d) as char
  }

  /** The digits have their values: the first and the last of each row, and each next to the one before. No other
      character has one. */
  lemma DigitAlphabet(c: char)
    ensures DigitVal('0') == 0 && DigitVal('9') == 9
    ensures DigitVal('a') == 10 && DigitVal('z') == 35 && DigitVal('A') == 10 && DigitVal('Z') == 35
    ensures '0' <= c < '9' || 'a' <= c < 'z' || 'A' <= c < 'Z' ==> DigitVal((c as int + 1) as char) == DigitVal(c) + 1
    ensures DigitVal(c) == -1 <==> !('0' <= c <= '9' || 'a' <= c <= 'z' || 'A' <= c <= 'Z')
  {}

  lemma DigitValOfDigit(d: nat, capital: bool)
    requires d < 36
    ensures DigitVal(Digit(d, capital)) == d
  {}

  predicate IsDigit(c: char, base: int) {
    0 <= DigitVal(c) < base
  }

  predicate IsSpace(c: char) {
    c == ' ' || c == '\U{0C}' || c == '\n' || c == '\r' || c == '\t' || c == '\U{0B}'
  }

  /** Reading a C string: behind its last character there is a NUL. */
  function At(s: string, i: nat): char {
    if i < |s| then s[i] else '\0'
  }

  /** The number that a run of digits denotes. */
  ghost function Positional(digits: string, base: nat): nat {
    if digits == [] then 0 else
      var d := DigitVal(digits[|digits|-1]);
      Positional(digits[..|digits|-1], base) * base + (if d >= 0 then d else 0)
  }

  // ----- the parts of the input -----

  /** The first position from `i` on that does not hold a space. */
  ghost function SkipSpaces(s: string, i: nat): (j: nat)
    requires i <= |s|
    ensures i <= j <= |s| && !IsSpace(At(s, j)) && forall k | i <= k < j :: IsSpace(s[k])
    decreases |s| - i
  {
    if IsSpace(At(s, i)) then SkipSpaces(s, i + 1) else i
  }

  /** The first position from `i` on that does not hold a digit of the base. */
  ghost function SkipDigits(s: string, i: nat, base: int): (j: nat)
    requires i <= |s|
    ensures i <= j <= |s| && !IsDigit(At(s, j), base) && forall k | i <= k < j :: IsDigit(s[k], base)
    decreases |s| - i
  {
    if IsDigit(At(s, i), base) then SkipDigits(s, i + 1, base) else i
  }

  /** The base actually used, and where the digits begin, for a number whose sign ends at `i`: "0x" selects or confirms
      base 16, any other leading zero base 8, and base 0 otherwise means base 10. */
  ghost function Radix(s: string, i: nat, base: int): (int, nat)
    requires i <= |s|
  {
    if At(s, i) == '0' && (At(s, i + 1) == 'x' || At(s, i + 1) == 'X') then
      if base == 0 || base == 16 then (16, i + 2) else (base, i)
    else if At(s, i) == '0' && (base == 0 || base == 8) then (8, i + 1)
    else (if base == 0 then 10 else base, i)
  }

  /** The value of a run of digits, no more than the largest that fits. */
  ghost function Saturated(digits: string, base: nat): nat {
    var number := Positional(digits, base);
    if number <= ULLONG_MAX then number else ULLONG_MAX
  }

  /** What `strtoull_s` yields: the value, the end position, and whether errno was set, and then to ERANGE. */
  datatype Parsed = Parsed(value: nat, end: nat, range: Option<bool>)

  ghost function Parse(s: string, base: int): Parsed {
    if !(base == 0 || 2 <= base <= 36) then Parsed(0, 0, None) else
      var sign := SkipSpaces(s, 0);
      var negative := At(s, sign) == '-';
      var (radix, first) := Radix(s, if negative || At(s, sign) == '+' then sign + 1 else sign, base);
      var end := SkipDigits(s, first, radix);
      if end == first then Parsed(0, 0, None) else
        var value := Saturated(s[first..end], radix);
        Parsed(if negative then (ULLONG_MAX + 1 - value) % (ULLONG_MAX + 1) else value, end,
               Some(Positional(s[first..end], radix) > ULLONG_MAX))
  }

  /** The overflow test made before multiplying tells exactly whether the next value would overflow. */
  lemma OverflowTest(room: nat, base: nat, result: nat)
    requires base > 0
    ensures room / base < result <==> room < result * base
  {
    var q, r := room / base, room % base;
    assert room == base * q + r;
    if q < result {
      Multiply(q + 1, result, base);
    } else {
      Multiply(result, q, base);
    }
  }

  lemma Multiply(x: nat, y: nat, base: nat)
    requires x <= y
    ensures x * base <= y * base
  {}

  /** One more digit: a value that was out of range stays so. */
  lemma OneMoreDigit(digits: string, c: char, base: nat)
    requires 2 <= base && IsDigit(c, base)
    ensures Positional(digits + [c], base) == Positional(digits, base) * base + DigitVal(c)
    ensures Positional(digits + [c], base) >= 2 * Positional(digits, base)
  {
    assert (digits + [c])[..|digits|] == digits;
    var p := Positional(digits, base);
    assert p * base == p * (base - 2) + 2 * p;
    assert p * (base - 2) >= 0;
  }

  lemma SaturatedStep(digits: string, c: char, base: nat)
    requires 2 <= base <= 36 && IsDigit(c, base)
    ensures Saturated(digits + [c], base) ==
            if (ULLONG_MAX - DigitVal(c)) / base < Saturated(digits, base) then ULLONG_MAX
            else Saturated(digits, base) * base + DigitVal(c)
    ensures Positional(digits + [c], base) > ULLONG_MAX <==>
              Positional(digits, base) > ULLONG_MAX || (ULLONG_MAX - DigitVal(c)) / base < Saturated(digits, base)
  {
    OneMoreDigit(digits, c, base);
    OverflowTest(ULLONG_MAX - DigitVal(c), base, Saturated(digits, base));
  }

  lemma OneMoreRead(s: string, first: nat, end: nat, radix: int, result: nat, range: bool)
    requires first <= end < |s| && 2 <= radix <= 36 && IsDigit(s[end], radix)
    requires result == Saturated(s[first..end], radix) && (range <==> Positional(s[first..end], radix) > ULLONG_MAX)
    ensures var over := (ULLONG_MAX - DigitVal(s[end])) / radix < result;
            && Saturated(s[first..end + 1], radix) ==
               (if over then ULLONG_MAX else result * radix + DigitVal(s[end]))
            && (Positional(s[first..end + 1], radix) > ULLONG_MAX <==> range || over)
    ensures SkipDigits(s, end, radix) == SkipDigits(s, end + 1, radix)
  {
    hide Positional, Saturated;
    SaturatedStep(s[first..end], s[end], radix);
    assert s[first..end + 1] == s[first..end] + [s[end]];
  }

  lemma NoMoreDigits(s: string, end: nat, radix: int)
    requires end <= |s| && !IsDigit(At(s, end), radix)
    ensures SkipDigits(s, end, radix) == end
  {}

  /** The loop of `strtoull_s` over a non-empty run of digits. */
  method ReadDigits(s: string, first: nat, radix: int) returns (result: nat, end: nat, range: bool)
    requires first < |s| && 2 <= radix <= 36 && IsDigit(s[first], radix)
    ensures end == SkipDigits(s, first, radix)
    ensures result == Saturated(s[first..end], radix)
    ensures range <==> Positional(s[first..end], radix) > ULLONG_MAX
  {
    result, end, range := 0, first, false;
    assert s[first..first] == [] && Positional("", radix) == 0 && Saturated("", radix) == 0;
    hide Positional, Saturated, DigitVal, SkipDigits;
    var digitVal := DigitVal(s[first]);
    var again := true;
    while again
      invariant first <= end <= |s|
      invariant digitVal == DigitVal(At(s, end)) && again == IsDigit(At(s, end), radix)
      invariant SkipDigits(s, first, radix) == SkipDigits(s, end, radix)
      invariant result == Saturated(s[first..end], radix)
      invariant range <==> Positional(s[first..end], radix) > ULLONG_MAX
      decreases again, |s| - end
    {
      OneMoreRead(s, first, end, radix, result, range);
      if (ULLONG_MAX - digitVal) / radix < result {
        result := ULLONG_MAX;
        range := true;
      } else {
        result := result * radix + digitVal;
      }
      end := end + 1;
      digitVal := DigitVal(At(s, end));
      again := 0 <= digitVal < radix;
    }
    NoMoreDigits(s, end, radix);
  }

  /** The part of `strtoull_s` that settles the base. */
  method ReadPrefix(s: string, start: nat, base: int) returns (radix: int, runner: nat)
    requires start <= |s| && (base == 0 || 2 <= base <= 36)
    ensures (radix, runner) == Radix(s, start, base)
    ensures 2 <= radix <= 36 && start <= runner <= |s|
  {
    radix, runner := base, start;
    if At(s, runner) == '0' {
      if At(s, runner + 1) == 'x' || At(s, runner + 1) == 'X' {
        if radix == 0 || radix == 16 {
          radix := 16;
          runner := runner + 2;
        }
      } else if radix == 0 || radix == 8 {
        radix := 8;
        runner := runner + 1;
      }
    }
    if radix == 0 {
      radix := 10;
    }
  }

  /** `strtoull_s` on a string. Arithmetic on the result is modulo 2^64. */
  method StrToUll(s: string, base: int) returns (p: Parsed)
    ensures p == Parse(s, base)
  {
    hide Positional, SkipSpaces, SkipDigits, Radix;
    var result, runner, negative := 0, 0, false;
    var range: Option<bool> := None;
    if (base >= 2 || base == 0) && base <= 36 {
      runner := EndOfSpaces(s);
      if At(s, runner) == '+' {
        runner := runner + 1;
      } else if At(s, runner) == '-' {
        negative := true;
        runner := runner + 1;
      }
      var radix;
      radix, runner := ReadPrefix(s, runner, base);
      if IsDigit(At(s, runner), radix) {
        var outOfRange;
        result, runner, outOfRange := ReadDigits(s, runner, radix);
        range := Some(outOfRange);
      } else {
        runner := 0;
      }
    }
    if negative {
      result := (ULLONG_MAX - result + 1) % (ULLONG_MAX + 1);
    }
    p := Parsed(result, runner, range);
  }

  method EndOfSpaces(s: string) returns (runner: nat)
    ensures runner == SkipSpaces(s, 0)
  {
    runner := 0;
    while IsSpace(At(s, runner))
      invariant runner <= |s| && SkipSpaces(s, 0) == SkipSpaces(s, runner)
      decreases |s| - runner
    {
      runner := runner + 1;
    }
  }

  /** Where the sign, if any, ends. */
  ghost function SignEnd(s: string): (i: nat)
    ensures i <= |s|
  {
    var i := SkipSpaces(s, 0);
    if At(s, i) == '+' || At(s, i) == '-' then i + 1 else i
  }

  /** Exactly when a number with a leading zero is converted: the zero of an octal prefix, or a hexadecimal prefix, must
      be followed by a digit of that base. So a lone "0" is converted in base 10 but not in base 0 or 8. */
  lemma LeadingZero(s: string, base: int)
    requires At(s, SignEnd(s)) == '0'
    ensures var x := At(s, SignEnd(s) + 1) in {'x', 'X'};
            && (base in {0, 16} && x ==> (Parse(s, base).range.Some? <==> IsDigit(At(s, SignEnd(s) + 2), 16)))
            && (base in {0, 8} && !x ==> (Parse(s, base).range.Some? <==> IsDigit(At(s, SignEnd(s) + 1), 8)))
            && (2 <= base <= 36 && base != 8 && !(base == 16 && x) ==> Parse(s, base).range.Some?)
  {
    if base == 0 || 2 <= base <= 36 {
      var (radix, first) := Radix(s, SignEnd(s), base);
      assert SkipDigits(s, first, radix) == first <==> !IsDigit(At(s, first), radix);
    }
  }

  /** A negative number out of range yields one, the negation of the largest value modulo 2^64. */
  lemma NegativeOutOfRange(s: string, base: int)
    requires Parse(s, base).range == Some(true) && At(s, SkipSpaces(s, 0)) == '-'
    ensures Parse(s, base).value == 1
  {}

  // ----- printing -----

  function DigitChar(d: nat): (c: char)
    requires d < 10
    ensures DigitVal(c) == d
  {
    '0' + d as char
  }

  /** Decimal notation without superfluous zeros. */
  function Decimal(value: nat): (text: string)
    ensures text != []
  {
    if value < 10 then [DigitChar(value)] else Decimal(value / 10) + [DigitChar(value % 10)]
  }

  function Reversed(s: string): (r: string)
    ensures |r| == |s|
  {
    if s == [] then [] else Reversed(s[1..]) + [s[0]]
  }

  lemma {:induction false} ReversedAt(s: string, k: nat)
    requires k < |s|
    ensures Reversed(s)[k] == s[|s| - 1 - k]
  {
    if k < |s| - 1 { ReversedAt(s[1..], k); }
  }

  /** The digits still to be printed followed by those printed so far in reverse. */
  ghost function Unprinted(rest: nat, printed: string): string {
    (if rest == 0 && printed != [] then [] else Decimal(rest)) + Reversed(printed)
  }

  lemma {:induction false} ReversedSnoc(s: string, c: char)
    ensures Reversed(s + [c]) == [c] + Reversed(s)
  {
    if s == [] {
      assert [c][1..] == [];
    } else {
      assert (s + [c])[1..] == s[1..] + [c];
      ReversedSnoc(s[1..], c);
      Associative([c], Reversed(s[1..]), [s[0]]);
    }
  }

  /** Printing one more digit. */
  lemma UnprintedStep(rest: nat, printed: string)
    requires rest > 0 || printed == []
    ensures Unprinted(rest / 10, printed + [DigitChar(rest % 10)]) == Unprinted(rest, printed)
  {
    ReversedSnoc(printed, DigitChar(rest % 10));
    if rest < 10 {
      assert [] + Reversed(printed + [DigitChar(rest % 10)]) == Decimal(rest) + Reversed(printed);
    } else {
      Associative(Decimal(rest / 10), [DigitChar(rest % 10)], Reversed(printed));
    }
  }

  /** The first loop of `size_tToString`: digits from the lowest up, for as long as they and a NUL fit. */
  method PrintReversed(destination: array<char>, value: nat) returns (pos: nat, rest: nat)
    requires destination.Length >= 2
    modifies destination
    ensures 0 < pos < destination.Length
    ensures Decimal(value) == (if rest == 0 then [] else Decimal(rest)) + Reversed(destination[..pos])
    ensures rest > 0 ==> pos == destination.Length - 1
    ensures destination[pos..] == old(destination[pos..])
  {
    pos, rest := 0, value;
    var again := true;
    assert Unprinted(value, []) == Decimal(value) + [] == Decimal(value);
    assert destination[..0] == [];
    while again
      invariant pos < destination.Length
      invariant Unprinted(rest, destination[..pos]) == Decimal(value)
      invariant destination[pos..] == old(destination[pos..])
      invariant again ==> pos + 1 < destination.Length && (rest > 0 || pos == 0)
      invariant !again ==> pos > 0 && (rest == 0 || pos == destination.Length - 1)
      decreases again, destination.Length - pos
    {
      UnprintedStep(rest, destination[..pos]);
      ghost var printed := destination[..pos];
      ghost var tail := destination[pos..];
      destination[pos] := DigitChar(rest % 10);
      assert destination[..pos + 1] == printed + [DigitChar(rest % 10)];
      assert destination[pos + 1..] == tail[1..];
      pos := pos + 1;
      rest := rest / 10;
      again := rest > 0 && pos < destination.Length - 1;
    }
  }

  /** The second loop of `size_tToString`: reverses the first `pos` characters in place. */
  method ReverseInPlace(destination: array<char>, pos: nat)
    requires 0 < pos < destination.Length
    modifies destination
    ensures destination[..pos] == Reversed(old(destination[..pos]))
    ensures destination[pos..] == old(destination[pos..])
  {
    ghost var was := destination[..];
    var w := 0;
    while w <= (pos - 1) / 2
      invariant w <= (pos - 1) / 2 + 1
      invariant forall k | 0 <= k < w :: destination[k] == was[pos - 1 - k] && destination[pos - 1 - k] == was[k]
      invariant forall k | w <= k < pos - w :: destination[k] == was[k]
      invariant forall k | pos <= k < destination.Length :: destination[k] == was[k]
    {
      var temp := destination[w];
      destination[w] := destination[pos - 1 - w];
      destination[pos - 1 - w] := temp;
      w := w + 1;
    }
    forall k | 0 <= k < pos ensures destination[..pos][k] == Reversed(was[..pos])[k] {
      ReversedAt(was[..pos], k);
    }
  }

  /** `size_tToString`: succeeds exactly if the decimal notation and a NUL fit. */
  method SizeToString(destination: array<char>, value: nat) returns (ok: bool)
    requires value <= ULLONG_MAX
    modifies destination
    ensures ok <==> |Decimal(value)| + 1 <= destination.Length
    ensures ok ==> var n := |Decimal(value)|;
              && destination[..n] == Decimal(value) && destination[n] == '\0'
              && destination[n+1..] == old(destination[n+1..])
    ensures !ok && destination.Length > 0 ==>
              destination[destination.Length-1] == old(destination[destination.Length-1])
  {
    if destination.Length < 2 {
      return false;
    }
    var pos, rest := PrintReversed(destination, value);
    if rest > 0 {
      assert destination[pos..][0] == old(destination[pos..])[0];
      return false;
    }
    ghost var tail := destination[pos..];
    assert Decimal(value) == Reversed(destination[..pos]);
    destination[pos] := '\0';
    assert destination[pos..] == ['\0'] + tail[1..];
    ReverseInPlace(destination, pos);
    assert destination[pos + 1..] == destination[pos..][1..];
    ok := true;
  }

  // ----- printing and parsing -----

  /** Decimal notation: digits only, and a leading zero only in "0". */
  predicate Canonical(text: string) {
    && text != [] && (forall k | 0 <= k < |text| :: IsDigit(text[k], 10))
    && (text[0] == '0' ==> |text| == 1)
  }

  lemma {:induction false} DecimalDenotes(value: nat)
    ensures Positional(Decimal(value), 10) == value
  {
    if value < 10 {
      assert Decimal(value)[..0] == [];
    } else {
      DecimalDenotes(value / 10);
      OneMoreDigit(Decimal(value / 10), DigitChar(value % 10), 10);
    }
  }

  lemma {:induction false} DecimalIsCanonical(value: nat)
    ensures Canonical(Decimal(value)) && (Decimal(value)[0] == '0' <==> value == 0)
  {
    if value >= 10 { DecimalIsCanonical(value / 10); }
  }

  lemma DigitCharOfVal(c: char)
    requires IsDigit(c, 10)
    ensures DigitChar(DigitVal(c)) == c
  {}

  lemma {:induction false} CanonicalIsDecimal(text: string)
    requires Canonical(text)
    ensures Decimal(Positional(text, 10)) == text && (Positional(text, 10) == 0 ==> text == "0")
  {
    var head, last := text[..|text|-1], text[|text|-1];
    DigitCharOfVal(last);
    assert text == head + [last];
    if head == [] {
      assert Positional(head, 10) == 0;
    } else {
      CanonicalIsDecimal(head);
      OneMoreDigit(head, last, 10);
      hide Positional;
      var value := Positional(text, 10);
      assert value / 10 == Positional(head, 10) && value % 10 == DigitVal(last) && value >= 10;
    }
  }

  /** The printer yields the one canonical text for each number. */
  lemma PrintsTheCanonicalText(text: string)
    ensures Canonical(text) <==> Decimal(Positional(text, 10)) == text
  {
    DecimalIsCanonical(Positional(text, 10));
    if Canonical(text) { CanonicalIsDecimal(text); }
  }

  /** Where a run of digits ends. */
  lemma DigitsEnd(s: string, i: nat, j: nat, base: int)
    requires i <= j <= |s| && (forall k | i <= k < j :: IsDigit(s[k], base)) && !IsDigit(At(s, j), base)
    ensures SkipDigits(s, i, base) == j
  {
    assert SkipDigits(s, i, base) >= j;
  }

  /** What `size_tToString` prints, `strtoull_s` reads back in base 10, up to the end of the printed text. */
  lemma PrintedIsReadBack(value: nat, rest: string)
    requires value <= ULLONG_MAX && !IsDigit(At(rest, 0), 10)
    ensures Parse(Decimal(value) + rest, 10) == Parsed(value, |Decimal(value)|, Some(false))
  {
    var text := Decimal(value);
    var s := text + rest;
    DecimalIsCanonical(value);
    DecimalDenotes(value);
    assert At(s, 0) == text[0] && IsDigit(text[0], 10);
    assert SkipSpaces(s, 0) == 0 && Radix(s, 0, 10) == (10, 0);
    assert At(s, |text|) == At(rest, 0);
    DigitsEnd(s, 0, |text|, 10);
    assert s[0..|text|] == text;
  }

  /** With the base left to `strtoull_s`, the printed text is read back exactly if the number is not zero. */
  lemma ReadBackInBaseZero(value: nat)
    requires value <= ULLONG_MAX
    ensures Parse(Decimal(value), 0) == Parsed(value, |Decimal(value)|, Some(false)) <==> value != 0
  {
    var text := Decimal(value);
    DecimalIsCanonical(value);
    assert IsDigit(text[0], 10);
    assert SkipSpaces(text, 0) == 0;
    if value == 0 {
      assert Radix(text, 0, 0) == (8, 1);
      DigitsEnd(text, 1, 1, 8);
    } else {
      assert Radix(text, 0, 0) == (10, 0);
      PrintedIsReadBack(value, "");
      assert text + "" == text;
    }
  }

  // ----- reading what is written -----

  /** Digits written down, with the letters in either case. */
  function Written(digits: seq<nat>, capital: bool): (text: string)
    requires forall k | 0 <= k < |digits| :: digits[k] < 36
    ensures |text| == |digits| && forall k | 0 <= k < |digits| :: text[k] == Digit(digits[k], capital)
  {
    hide Digit;
    seq(|digits|, k requires 0 <= k < |digits| => Digit(digits[k], capital))
  }

  /** The number that they make up. */
  ghost function Worth(digits: seq<nat>, base: nat): nat {
    if digits == [] then 0 else Worth(digits[..|digits|-1], base) * base + digits[|digits|-1]
  }

  lemma {:induction false} WrittenDenotes(digits: seq<nat>, base: nat, capital: bool)
    requires 2 <= base <= 36 && forall k | 0 <= k < |digits| :: digits[k] < base
    ensures Positional(Written(digits, capital), base) == Worth(digits, base)
    ensures forall k | 0 <= k < |digits| ::
              IsDigit(Written(digits, capital)[k], base) && DigitVal(Written(digits, capital)[k]) == digits[k]
  {
    hide DigitVal, Positional, Digit;
    if digits == [] {
      NothingDenoted(base);
      assert Written(digits, capital) == "";
    } else {
      var last := |digits| - 1;
      var head, d := digits[..last], digits[last];
      DigitValOfDigit(d, capital);
      WrittenDenotes(head, base, capital);
      OneMoreDigit(Written(head, capital), Digit(d, capital), base);
      assert Written(digits, capital) == Written(head, capital) + [Digit(d, capital)];
    }
  }

  lemma NothingDenoted(base: nat)
    ensures Positional("", base) == 0
  {}

  lemma SpacesEnd(s: string, n: nat)
    requires n <= |s| && (forall k | 0 <= k < n :: IsSpace(s[k])) && !IsSpace(At(s, n))
    ensures SkipSpaces(s, 0) == n
  {
    hide IsSpace;
    assert SkipSpaces(s, 0) >= n;
  }

  /** Nothing is converted in a base that does not exist, or without a digit behind spaces, sign and prefix. */
  lemma NothingToRead(s: string, base: int)
    ensures base < 0 || base == 1 || base > 36 ==> Parse(s, base) == Parsed(0, 0, None)
    ensures 2 <= base <= 36 && At(s, SignEnd(s)) != '0' && !IsDigit(At(s, SignEnd(s)), base) ==>
              Parse(s, base) == Parsed(0, 0, None)
    ensures base == 0 && !IsDigit(At(s, SignEnd(s)), 10) ==> Parse(s, base) == Parsed(0, 0, None)
  {
    if base == 0 || 2 <= base <= 36 {
      var (radix, first) := Radix(s, SignEnd(s), base);
      assert SkipDigits(s, first, radix) == first <==> !IsDigit(At(s, first), radix);
    }
  }

  /** What may stand in front of the digits: nothing, if the base is known or ten; "0x" for base 16; or "0" for
      base 8. */
  predicate Announces(prefix: string, base: int, radix: nat) {
    || (prefix == "" && 2 <= base <= 36 && radix == base)
    || (prefix == "" && base == 0 && radix == 10)
    || (prefix in {"0x", "0X"} && base in {0, 16} && radix == 16)
    || (prefix == "0" && base in {0, 8} && radix == 8)
  }

  /** A number written in any base, behind spaces, a sign, and the prefix that announces the base, is read up to its
      end: with its own value if that fits in 64 bits, otherwise with the largest one and an error; negated modulo 2^64
      behind a minus. Without a prefix the number must not begin with a zero. */
  lemma ReadsWhatIsWritten(spaces: string, sign: string, prefix: string, digits: seq<nat>, base: int, radix: nat,
                           capital: bool, rest: string)
    requires forall c <- spaces :: c in " \t\n\r\U{0B}\U{0C}"
    requires sign in {"", "+", "-"}
    requires 2 <= radix <= 36 && Announces(prefix, base, radix)
    requires digits != [] && (forall k | 0 <= k < |digits| :: digits[k] < radix) && (prefix == "" ==> digits[0] > 0)
    requires rest == "" || forall d | 0 <= d < radix :: rest[0] != Digit(d, false) && rest[0] != Digit(d, true)
    ensures var number, n := spaces + sign + prefix + Written(digits, capital), Worth(digits, radix);
            var magnitude := if n <= 0xFFFF_FFFF_FFFF_FFFF then n else 0xFFFF_FFFF_FFFF_FFFF;
            var value := if sign != "-" || n == 0 then magnitude else 0x1_0000_0000_0000_0000 - magnitude;
            Parse(number + rest, base) == Parsed(value, |number|, Some(n > 0xFFFF_FFFF_FFFF_FFFF))
  {
    hide Written, Positional, SkipDigits, SkipSpaces, Radix, IsDigit, Announces, Parse;
    var text, n := Written(digits, capital), Worth(digits, radix);
    RadixInRange(prefix, base, radix);
    WrittenDenotes(digits, radix, capital);
    var front := spaces + sign + prefix;
    var s := front + text + rest;
    FrontRead(spaces, sign, prefix, text, rest, base, radix);
    NoDigitBehind(rest, radix);
    DigitsRead(front, text, rest, radix);
    assert s[|front|..|front| + |text|] == text;
    ParsedFrom(s, base, |spaces|, sign, radix, |front|, |front| + |text|, n);
  }

  /** What is read, from where its parts are. */
  lemma ParsedFrom(s: string, base: int, i: nat, sign: string, radix: nat, first: nat, end: nat, n: nat)
    requires (base == 0 || 2 <= base <= 36) && i + |sign| <= |s| && first < end <= |s|
    requires SkipSpaces(s, 0) == i && Radix(s, i + |sign|, base) == (radix, first)
    requires sign in {"", "+", "-"} && (At(s, i) == '-' <==> sign == "-") && (At(s, i) == '+' <==> sign == "+")
    requires SkipDigits(s, first, radix) == end && Positional(s[first..end], radix) == n
    ensures var magnitude := if n <= 0xFFFF_FFFF_FFFF_FFFF then n else 0xFFFF_FFFF_FFFF_FFFF;
            var value := if sign != "-" || n == 0 then magnitude else 0x1_0000_0000_0000_0000 - magnitude;
            Parse(s, base) == Parsed(value, end, Some(n > 0xFFFF_FFFF_FFFF_FFFF))
  {
    hide Positional, SkipDigits, SkipSpaces, Radix;
  }

  lemma RadixInRange(prefix: string, base: int, radix: nat)
    requires Announces(prefix, base, radix)
    ensures 2 <= radix <= 36 && (base == 0 || 2 <= base <= 36)
  {}

  lemma NoDigitBehind(rest: string, radix: nat)
    requires 2 <= radix <= 36
    requires rest == "" || forall d | 0 <= d < radix :: rest[0] != Digit(d, false) && rest[0] != Digit(d, true)
    ensures !IsDigit(At(rest, 0), radix)
  {
    if rest != "" && IsDigit(rest[0], radix) {
      DigitOfDigitVal(rest[0]);
    }
  }

  lemma DigitOfDigitVal(c: char)
    requires DigitVal(c) >= 0
    ensures c == Digit(DigitVal(c), false) || c == Digit(DigitVal(c), true)
  {}

  lemma DigitsRead(front: string, text: string, rest: string, radix: nat)
    requires (forall k | 0 <= k < |text| :: IsDigit(text[k], radix)) && !IsDigit(At(rest, 0), radix)
    ensures SkipDigits(front + text + rest, |front|, radix) == |front| + |text|
  {
    hide IsDigit;
    var s := front + text + rest;
    assert forall k | |front| <= k < |front| + |text| :: s[k] == text[k - |front|];
    assert At(s, |front| + |text|) == At(rest, 0);
    DigitsEnd(s, |front|, |front| + |text|, radix);
  }

  /** Spaces and sign are skipped, and the prefix settles the base. */
  lemma FrontRead(spaces: string, sign: string, prefix: string, text: string, rest: string, base: int, radix: nat)
    requires forall c <- spaces :: c in " \t\n\r\U{0B}\U{0C}"
    requires sign in {"", "+", "-"} && Announces(prefix, base, radix)
    requires text != "" && IsDigit(text[0], radix) && (prefix == "" ==> DigitVal(text[0]) > 0)
    ensures var s, i := spaces + sign + prefix + text + rest, |spaces|;
            && SkipSpaces(s, 0) == i
            && (At(s, i) == '-' <==> sign == "-") && (At(s, i) == '+' <==> sign == "+")
            && Radix(s, i + |sign|, base) == (radix, i + |sign| + |prefix|)
  {
    hide IsSpace, Radix, DigitVal, SkipSpaces;
    var s, i, j := spaces + sign + prefix + text + rest, |spaces|, |spaces| + |sign|;
    var tail := prefix + text + rest;
    assert s == spaces + (sign + tail);
    assert tail[0] == if prefix == "" then text[0] else prefix[0];
    assert forall k | 0 <= k < i :: s[k] == spaces[k] && spaces[k] in spaces;
    assert s[i] == (sign + tail)[0] == if sign == "" then tail[0] else sign[0];
    SpacesAndSigns(tail[0]);
    forall k | 0 <= k < i ensures IsSpace(s[k]) { SpacesAndSigns(s[k]); }
    SpacesAndSigns(s[i]);
    SpacesEnd(s, i);
    assert s[j] == tail[0];
    assert |tail| > 1 ==> s[j + 1] == tail[1];
    if prefix == "0" { assert tail[1] == text[0]; }
    if |prefix| == 2 { assert tail[1] == prefix[1]; }
    RadixRead(s, j, prefix, text[0], base, radix);
  }

  lemma SpacesAndSigns(c: char)
    ensures IsSpace(c) <==> c in " \t\n\r\U{0B}\U{0C}"
    ensures DigitVal(c) >= 0 ==> !IsSpace(c) && c != '+' && c != '-'
    ensures c in {'+', '-', '0'} ==> !IsSpace(c)
    ensures DigitVal(c) > 0 ==> c != '0'
    ensures DigitVal(c) < 33 ==> c != 'x' && c != 'X'
  {}

  lemma RadixRead(s: string, j: nat, prefix: string, digit: char, base: int, radix: nat)
    requires Announces(prefix, base, radix) && IsDigit(digit, radix) && (prefix == "" ==> DigitVal(digit) > 0)
    requires At(s, j) == if prefix == "" then digit else '0'
    requires prefix == "0" ==> At(s, j + 1) == digit
    requires |prefix| == 2 ==> At(s, j + 1) == prefix[1]
    requires j <= |s|
    ensures Radix(s, j, base) == (radix, j + |prefix|)
  {
    SpacesAndSigns(digit);
  }
}
