/** Byte sizes and durations: 64-bit quantities written as decimal digits and a unit. */
module Quantities {
  import opened Wrappers

  const U64_MAX := 0xffff_ffff_ffff_ffff
  const U64_SIZE := U64_MAX + 1

  // ---------------------------------------------------------------- lexing

  /** The characters with the Unicode property `White_Space`, which `trim` removes. */
  predicate IsWhitespace(c: char) {
    || '\U{0009}' <= c <= '\U{000D}' || c == ' ' || c == '\U{0085}' || c == '\U{00A0}' || c == '\U{1680}'
    || '\U{2000}' <= c <= '\U{200A}' || c == '\U{2028}' || c == '\U{2029}' || c == '\U{202F}'
    || c == '\U{205F}' || c == '\U{3000}'
  }

  function TrimStart(s: string): string {
    if s != "" && IsWhitespace(s[0]) then TrimStart(s[1..]) else s
  }

  function TrimEnd(s: string): string {
    if s != "" && IsWhitespace(s[|s| - 1]) then TrimEnd(s[..|s| - 1]) else s
  }

  function Trim(s: string): string {
    TrimEnd(TrimStart(s))
  }

  predicate IsDigit(c: char) {
    '0' <= c <= '9'
  }

  predicate AllDigits(s: string) {
    forall i :: 0 <= i < |s| ==> IsDigit(s[i])
  }

  function DigitCount(s: string): (n: nat)
    ensures n <= |s| && AllDigits(s[..n])
    ensures n < |s| ==> !IsDigit(s[n])
  {
    if s == "" || !IsDigit(s[0]) then 0
    else
      assert s[..1 + DigitCount(s[1..])] == [s[0]] + s[1..][..DigitCount(s[1..])];
      1 + DigitCount(s[1..])
  }

  function DigitValue(c: char): nat
    requires IsDigit(c)
  {
    c as nat - '0' as nat
  }

  function Value(digits: string): nat
    requires AllDigits(digits)
  {
    if digits == "" then 0 else Value(digits[..|digits| - 1]) * 10 + DigitValue(digits[|digits| - 1])
  }

  /** `u64::from_str` on text that contains digits only. */
  function ParseU64(digits: string): Option<nat>
    requires AllDigits(digits)
  {
    if digits == "" || Value(digits) > U64_MAX then None else Some(Value(digits))
  }

  function Decimal(n: nat): string {
    (if n < 10 then "" else Decimal(n / 10)) + [(n % 10 + '0' as nat) as char]
  }

  // ---------------------------------------------------------------- byte sizes

  function ByteUnit(unit: string): Option<nat> {
    match unit
    case "" => Some(1)
    case "B" => Some(1)
    case "Ki" => Some(1024)
    case "KiB" => Some(1024)
    case "Mi" => Some(1024 * 1024)
    case "MiB" => Some(1024 * 1024)
    case "Gi" => Some(1024 * 1024 * 1024)
    case "GiB" => Some(1024 * 1024 * 1024)
    case "Ti" => Some(1024 * 1024 * 1024 * 1024)
    case "TiB" => Some(1024 * 1024 * 1024 * 1024)
    case "K" => Some(1000)
    case "KB" => Some(1000)
    case "M" => Some(1000 * 1000)
    case "MB" => Some(1000 * 1000)
    case "G" => Some(1000 * 1000 * 1000)
    case "GB" => Some(1000 * 1000 * 1000)
    case "T" => Some(1000 * 1000 * 1000 * 1000)
    case "TB" => Some(1000 * 1000 * 1000 * 1000)
    case _ => None
  }

  /** The bytes, or the trimmed text that could not be read. */
  function ParseByteSize(text: string): Result<nat, string> {
    var s := Trim(text);
    var n := DigitCount(s);
    if s == "" then Err(s)
    else
      var number := ParseU64(s[..n]);
      var multiplier := ByteUnit(s[n..]);
      if number.None? || multiplier.None? then Err(s)
      else if number.value * multiplier.value > U64_MAX then Err(s)
      else Ok(number.value * multiplier.value)
  }

  function PrintByteSize(bytes: nat): string {
    var gi, mi, ki := 1024 * 1024 * 1024, 1024 * 1024, 1024;
    if bytes >= gi && bytes % gi == 0 then Decimal(bytes / gi) + "Gi"
    else if bytes >= mi && bytes % mi == 0 then Decimal(bytes / mi) + "Mi"
    else if bytes >= ki && bytes % ki == 0 then Decimal(bytes / ki) + "Ki"
    else Decimal(bytes) + "B"
  }

  // ---------------------------------------------------------------- durations

  function DurationUnit(unit: string): Option<nat> {
    match unit
    case "s" => Some(1)
    case "sec" => Some(1)
    case "second" => Some(1)
    case "seconds" => Some(1)
    case "" => Some(1)
    case "m" => Some(60)
    case "min" => Some(60)
    case "minute" => Some(60)
    case "minutes" => Some(60)
    case "h" => Some(3600)
    case "hr" => Some(3600)
    case "hour" => Some(3600)
    case "hours" => Some(3600)
    case "d" => Some(86400)
    case "day" => Some(86400)
    case "days" => Some(86400)
    case _ => None
  }

  /** The seconds; or the text that could not be read; or the panic of a build that checks
      its arithmetic. */
  datatype DurationOutcome = Seconds(seconds: nat) | Invalid(text: string) | Panic

  /** The product is not checked by the parser itself: a build without overflow checks
      wraps around. */
  function ParseDuration(text: string, overflowChecks: bool): DurationOutcome {
    var s := Trim(text);
    var n := DigitCount(s);
    if s == "" then Invalid(s)
    else
      var number := ParseU64(s[..n]);
      var multiplier := DurationUnit(s[n..]);
      if number.None? || multiplier.None? then Invalid(s)
      else if number.value * multiplier.value > U64_MAX && overflowChecks then Panic
      else Seconds(number.value * multiplier.value % U64_SIZE)
  }

  function PrintDuration(seconds: nat): string {
    var day, hour, minute := 86400, 3600, 60;
    if seconds % day == 0 && seconds >= day then Decimal(seconds / day) + "d"
    else if seconds % hour == 0 && seconds >= hour then Decimal(seconds / hour) + "h"
    else if seconds % minute == 0 && seconds >= minute then Decimal(seconds / minute) + "m"
    else Decimal(seconds) + "s"
  }

  // ---------------------------------------------------------------- characters

  /** The twenty-five characters of white space by number, and the ten digits in their order. */
  lemma CharactersAre(c: char)
    ensures IsWhitespace(c) <==>
            c as int in {0x9, 0xA, 0xB, 0xC, 0xD, 0x20, 0x85, 0xA0, 0x1680,
                         0x2000, 0x2001, 0x2002, 0x2003, 0x2004, 0x2005, 0x2006, 0x2007, 0x2008, 0x2009, 0x200A,
                         0x2028, 0x2029, 0x202F, 0x205F, 0x3000}
    ensures IsDigit(c) <==> c in "0123456789"
    ensures forall k :: 0 <= k < 10 ==> IsDigit("0123456789"[k]) && DigitValue("0123456789"[k]) == k
  {
  }

  // ---------------------------------------------------------------- decimal numbers

  ghost function PowerOfTen(k: nat): nat {
    if k == 0 then 1 else 10 * PowerOfTen(k - 1)
  }

  /** Digits count by their place. */
  lemma {:induction false} LeadingDigit(c: char, rest: string)
    requires IsDigit(c) && AllDigits(rest)
    ensures Value("") == 0 && AllDigits([c] + rest)
    ensures Value([c] + rest) == DigitValue(c) * PowerOfTen(|rest|) + Value(rest)
  {
    hide DigitValue, IsDigit;
    if rest == "" {
      assert [c] + rest == [c] && [c][..0] == "";
    } else {
      var init := rest[..|rest| - 1];
      LeadingDigit(c, init);
      assert ([c] + rest)[..|rest|] == [c] + init;
      assert DigitValue(c) * (10 * PowerOfTen(|init|)) == 10 * (DigitValue(c) * PowerOfTen(|init|));
    }
  }

  /** The decimal digits of a number: it reads back, and there is no leading zero. */
  lemma {:induction false} DecimalReadsBack(n: nat)
    ensures Decimal(n) != "" && AllDigits(Decimal(n)) && Value(Decimal(n)) == n
    ensures Decimal(n)[0] == '0' ==> n == 0 && Decimal(n) == "0"
  {
    if n >= 10 {
      DecimalReadsBack(n / 10);
      assert Decimal(n)[..|Decimal(n)| - 1] == Decimal(n / 10);
    } else {
      assert Decimal(n)[..0] == "";
    }
  }

  predicate AllWhitespace(s: string) {
    forall i :: 0 <= i < |s| ==> IsWhitespace(s[i])
  }

  lemma {:induction false} TrimStartCuts(s: string) returns (left: string)
    ensures s == left + TrimStart(s) && AllWhitespace(left)
    ensures TrimStart(s) != "" ==> !IsWhitespace(TrimStart(s)[0])
  {
    if s != "" && IsWhitespace(s[0]) {
      var rest := TrimStartCuts(s[1..]);
      left := [s[0]] + rest;
    } else {
      left := "";
    }
  }

  lemma {:induction false} TrimEndCuts(s: string) returns (right: string)
    ensures s == TrimEnd(s) + right && AllWhitespace(right)
    ensures TrimEnd(s) != "" ==> !IsWhitespace(TrimEnd(s)[|TrimEnd(s)| - 1])
  {
    if s != "" && IsWhitespace(s[|s| - 1]) {
      var rest := TrimEndCuts(s[..|s| - 1]);
      right := rest + [s[|s| - 1]];
      assert s == s[..|s| - 1] + [s[|s| - 1]];
    } else {
      right := "";
      assert s == s + "";
    }
  }

  /** Trimming cuts white space off both ends, and all of it. */
  lemma TrimCuts(s: string) returns (left: string, right: string)
    ensures s == left + Trim(s) + right && AllWhitespace(left) && AllWhitespace(right)
    ensures Trim(s) != "" ==> !IsWhitespace(Trim(s)[0]) && !IsWhitespace(Trim(s)[|Trim(s)| - 1])
  {
    left := TrimStartCuts(s);
    right := TrimEndCuts(TrimStart(s));
    assert Trim(s) != "" ==> Trim(s)[0] == TrimStart(s)[0];
  }

  /** The digit run of `digits + unit` is `digits`, when the unit does not start with one. */
  lemma SplitsAtUnit(digits: string, unit: string)
    requires AllDigits(digits) && (unit != "" ==> !IsDigit(unit[0]))
    ensures DigitCount(digits + unit) == |digits|
    ensures (digits + unit)[..|digits|] == digits && (digits + unit)[|digits|..] == unit
  {
  }

  lemma UnitsAreNotDigits(unit: string)
    requires ByteUnit(unit).Some? || DurationUnit(unit).Some?
    ensures unit != "" ==> !IsDigit(unit[0]) && !IsWhitespace(unit[|unit| - 1])
    ensures ByteUnit(unit).Some? ==> ByteUnit(unit).value >= 1
    ensures DurationUnit(unit).Some? ==> DurationUnit(unit).value >= 1
  {
  }

  // ---------------------------------------------------------------- units

  lemma ByteUnits(unit: string)
    ensures ByteUnit(unit) == Some(1) <==> unit in {"", "B"}
    ensures ByteUnit(unit) == Some(1024) <==> unit in {"Ki", "KiB"}
    ensures ByteUnit(unit) == Some(1_048_576) <==> unit in {"Mi", "MiB"}
    ensures ByteUnit(unit) == Some(1_073_741_824) <==> unit in {"Gi", "GiB"}
    ensures ByteUnit(unit) == Some(1_099_511_627_776) <==> unit in {"Ti", "TiB"}
    ensures ByteUnit(unit) == Some(1_000) <==> unit in {"K", "KB"}
    ensures ByteUnit(unit) == Some(1_000_000) <==> unit in {"M", "MB"}
    ensures ByteUnit(unit) == Some(1_000_000_000) <==> unit in {"G", "GB"}
    ensures ByteUnit(unit) == Some(1_000_000_000_000) <==> unit in {"T", "TB"}
    ensures ByteUnit(unit).Some? ==>
              ByteUnit(unit).value in {1, 1024, 1_048_576, 1_073_741_824, 1_099_511_627_776,
                                       1_000, 1_000_000, 1_000_000_000, 1_000_000_000_000}
  {
  }

  lemma DurationUnits(unit: string)
    ensures DurationUnit(unit) == Some(1) <==> unit in {"", "s", "sec", "second", "seconds"}
    ensures DurationUnit(unit) == Some(60) <==> unit in {"m", "min", "minute", "minutes"}
    ensures DurationUnit(unit) == Some(60 * 60) <==> unit in {"h", "hr", "hour", "hours"}
    ensures DurationUnit(unit) == Some(24 * 60 * 60) <==> unit in {"d", "day", "days"}
    ensures DurationUnit(unit).Some? ==> DurationUnit(unit).value in {1, 60, 60 * 60, 24 * 60 * 60}
  {
  }

  lemma PrintsZero()
    ensures PrintByteSize(0) == "0B" && PrintDuration(0) == "0s"
  {
  }

  // ---------------------------------------------------------------- what the parsers accept

  /** `text` is, between white space, a number in decimal digits followed by a unit. */
  ghost predicate Spells(text: string, digits: string, unit: string) {
    digits != "" && AllDigits(digits) && Trim(text) == digits + unit
  }

  lemma ByteSizeOfSpelling(text: string, digits: string, unit: string)
    requires Spells(text, digits, unit) && ByteUnit(unit).Some?
    ensures var product := Value(digits) * ByteUnit(unit).value;
            ParseByteSize(text) == if product <= U64_MAX then Ok(product) else Err(Trim(text))
  {
    UnitsAreNotDigits(unit);
    SplitsAtUnit(digits, unit);
    ProductBounds(Value(digits), ByteUnit(unit).value);
  }

  lemma ProductBounds(number: nat, multiplier: nat)
    requires multiplier >= 1
    ensures number * multiplier >= number
  {
  }

  /** A byte size is read exactly from those texts that spell a number and a known unit
      whose exact product fits in 64 bits, and its value is that product. */
  lemma ByteSizeIffSpelled(text: string, bytes: nat)
    ensures ParseByteSize(text) == Ok(bytes) <==>
            exists digits, unit ::
              Spells(text, digits, unit) && ByteUnit(unit).Some?
              && bytes == Value(digits) * ByteUnit(unit).value <= U64_MAX
    ensures ParseByteSize(text).Ok? || ParseByteSize(text) == Err(Trim(text))
  {
    if ParseByteSize(text) == Ok(bytes) {
      var s := Trim(text);
      var n := DigitCount(s);
      assert s == s[..n] + s[n..];
      assert Spells(text, s[..n], s[n..]);
    }
    if digits, unit :| Spells(text, digits, unit) && ByteUnit(unit).Some?
                       && bytes == Value(digits) * ByteUnit(unit).value <= U64_MAX {
      ByteSizeOfSpelling(text, digits, unit);
    }
  }

  /** For a number that fits in 64 bits, a duration is read exactly if and only if the
      product fits too. Otherwise a checking build panics, and another one wraps. */
  lemma DurationExactIffFits(text: string, digits: string, unit: string, overflowChecks: bool)
    requires Spells(text, digits, unit) && DurationUnit(unit).Some? && Value(digits) <= U64_MAX
    ensures var product := Value(digits) * DurationUnit(unit).value;
            && (ParseDuration(text, overflowChecks) == Seconds(product) <==> product <= U64_MAX)
            && (product > U64_MAX ==>
                  ParseDuration(text, overflowChecks) == if overflowChecks then Panic else Seconds(product % U64_SIZE))
  {
    UnitsAreNotDigits(unit);
    SplitsAtUnit(digits, unit);
    Wraps(Value(digits) * DurationUnit(unit).value);
  }

  lemma Wraps(product: nat)
    ensures product % U64_SIZE == product <==> product <= U64_MAX
  {
  }

  /** Every other text is rejected, in both kinds of build. */
  lemma DurationInvalidIff(text: string, overflowChecks: bool)
    ensures ParseDuration(text, overflowChecks) == Invalid(Trim(text)) <==>
            !exists digits, unit ::
               Spells(text, digits, unit) && DurationUnit(unit).Some? && Value(digits) <= U64_MAX
  {
    if digits, unit :| Spells(text, digits, unit) && DurationUnit(unit).Some? && Value(digits) <= U64_MAX {
      DurationExactIffFits(text, digits, unit, overflowChecks);
    } else if !ParseDuration(text, overflowChecks).Invalid? {
      var s := Trim(text);
      var n := DigitCount(s);
      assert s == s[..n] + s[n..];
      assert Spells(text, s[..n], s[n..]);
    }
  }

  // ---------------------------------------------------------------- printing and parsing

  /** Text without white space at its ends spells its number and unit as it stands. */
  lemma DigitsSpell(digits: string, unit: string)
    requires digits != "" && AllDigits(digits)
    requires unit != "" ==> !IsWhitespace(unit[|unit| - 1])
    ensures Spells(digits + unit, digits, unit)
  {
  }

  lemma PrintedByteSize(n: nat, unit: string, multiplier: nat)
    requires ByteUnit(unit) == Some(multiplier) && n * multiplier <= U64_MAX
    ensures ParseByteSize(Decimal(n) + unit) == Ok(n * multiplier)
  {
    UnitsAreNotDigits(unit);
    DecimalReadsBack(n);
    DigitsSpell(Decimal(n), unit);
    ByteSizeOfSpelling(Decimal(n) + unit, Decimal(n), unit);
  }

  lemma PrintedDuration(n: nat, unit: string, multiplier: nat, overflowChecks: bool)
    requires DurationUnit(unit) == Some(multiplier) && n * multiplier <= U64_MAX
    ensures ParseDuration(Decimal(n) + unit, overflowChecks) == Seconds(n * multiplier)
  {
    UnitsAreNotDigits(unit);
    DecimalReadsBack(n);
    DigitsSpell(Decimal(n), unit);
    ProductBounds(n, multiplier);
    DurationExactIffFits(Decimal(n) + unit, Decimal(n), unit, overflowChecks);
  }

  lemma PrintedUnits()
    ensures ByteUnit("Gi") == Some(0x4000_0000) && ByteUnit("Mi") == Some(0x10_0000)
    ensures ByteUnit("Ki") == Some(0x400) && ByteUnit("B") == Some(1)
  {
  }

  lemma Divides(bytes: nat, multiplier: nat)
    requires multiplier >= 1 && bytes % multiplier == 0
    ensures bytes / multiplier * multiplier == bytes
  {
  }

  /** Printing and then parsing is the identity on all 64-bit byte sizes. */
  lemma ByteSizeRoundTrip(bytes: nat)
    requires bytes <= U64_MAX
    ensures ParseByteSize(PrintByteSize(bytes)) == Ok(bytes)
  {
    hide ParseByteSize, Decimal, ByteUnit;
    var gi, mi, ki := 1024 * 1024 * 1024, 1024 * 1024, 1024;
    PrintedUnits();
    if bytes >= gi && bytes % gi == 0 {
      Divides(bytes, gi);
      PrintedByteSize(bytes / gi, "Gi", gi);
    } else if bytes >= mi && bytes % mi == 0 {
      Divides(bytes, mi);
      PrintedByteSize(bytes / mi, "Mi", mi);
    } else if bytes >= ki && bytes % ki == 0 {
      Divides(bytes, ki);
      PrintedByteSize(bytes / ki, "Ki", ki);
    } else {
      PrintedByteSize(bytes, "B", 1);
    }
  }

  /** The same for durations, in both kinds of build. */
  lemma DurationRoundTrip(seconds: nat, overflowChecks: bool)
    requires seconds <= U64_MAX
    ensures ParseDuration(PrintDuration(seconds), overflowChecks) == Seconds(seconds)
  {
    hide ParseDuration, Decimal;
    var day, hour, minute := 86400, 3600, 60;
    if seconds % day == 0 && seconds >= day {
      PrintedDuration(seconds / day, "d", day, overflowChecks);
    } else if seconds % hour == 0 && seconds >= hour {
      PrintedDuration(seconds / hour, "h", hour, overflowChecks);
    } else if seconds % minute == 0 && seconds >= minute {
      PrintedDuration(seconds / minute, "m", minute, overflowChecks);
    } else {
      PrintedDuration(seconds, "s", 1, overflowChecks);
    }
  }

  /** The text names the largest of the printed units that divides the value: with any
      larger one, part of the value would be lost. */
  lemma PrintsLargestByteUnit(bytes: nat)
    requires bytes > 0
    ensures exists n: nat, unit :: PrintByteSize(bytes) == Decimal(n) + unit
              && unit in {"B", "Ki", "Mi", "Gi"} && n * ByteUnit(unit).value == bytes
              && forall larger :: larger in {"B", "Ki", "Mi", "Gi"} && bytes % ByteUnit(larger).value == 0
                                  ==> ByteUnit(larger).value <= ByteUnit(unit).value
  {
    PrintedUnits();
    var gi, mi, ki := 1024 * 1024 * 1024, 1024 * 1024, 1024;
    var unit := if bytes % gi == 0 then "Gi" else if bytes % mi == 0 then "Mi"
                else if bytes % ki == 0 then "Ki" else "B";
    var multiplier := ByteUnit(unit).value;
    Divides(bytes, multiplier);
    assert PrintByteSize(bytes) == Decimal(bytes / multiplier) + unit;
  }

  /** The same for durations. */
  lemma PrintsLargestDurationUnit(seconds: nat)
    requires seconds > 0
    ensures exists n: nat, unit :: PrintDuration(seconds) == Decimal(n) + unit
              && unit in {"s", "m", "h", "d"} && n * DurationUnit(unit).value == seconds
              && forall larger :: larger in {"s", "m", "h", "d"} && seconds % DurationUnit(larger).value == 0
                                  ==> DurationUnit(larger).value <= DurationUnit(unit).value
  {
    var unit := if seconds % 86400 == 0 then "d" else if seconds % 3600 == 0 then "h"
                else if seconds % 60 == 0 then "m" else "s";
    var multiplier := DurationUnit(unit).value;
    Divides(seconds, multiplier);
    assert PrintDuration(seconds) == Decimal(seconds / multiplier) + unit;
  }

  // ---------------------------------------------------------------- the first overflow

  lemma NextDigit(n: nat, text: string, c: char)
    requires n > 0 && Decimal(n) == text && IsDigit(c)
    ensures Decimal(10 * n + DigitValue(c)) == text + [c]
  {
  }

  /** `213503982334601`, digit by digit, and its successor. */
  lemma LargestDays()
    ensures Decimal(213503982334601) == "213503982334601"
    ensures Decimal(213503982334602) == "213503982334602"
  {
    assert Decimal(2) == "2";
    NextDigit(2, "2", '1');
    NextDigit(21, "21", '3');
    NextDigit(213, "213", '5');
    NextDigit(2135, "2135", '0');
    NextDigit(21350, "21350", '3');
    NextDigit(213503, "213503", '9');
    NextDigit(2135039, "2135039", '8');
    NextDigit(21350398, "21350398", '2');
    NextDigit(213503982, "213503982", '3');
    NextDigit(2135039823, "2135039823", '3');
    NextDigit(21350398233, "21350398233", '4');
    NextDigit(213503982334, "213503982334", '6');
    NextDigit(2135039823346, "2135039823346", '0');
    NextDigit(21350398233460, "21350398233460", '1');
    NextDigit(21350398233460, "21350398233460", '2');
  }

  /** The largest number of days that fits in 64 bits, and the next one, for which a checking
      build panics and another one reads less than a day. */
  lemma FirstOverflow(overflowChecks: bool)
    ensures ParseDuration("213503982334601d", overflowChecks) == Seconds(18446744073709526400)
    ensures ParseDuration("213503982334602d", overflowChecks) == if overflowChecks then Panic else Seconds(61184)
  {
    hide ParseDuration, Decimal;
    LargestDays();
    DaysOverflow(213503982334601, overflowChecks);
    DaysOverflow(213503982334602, overflowChecks);
    assert "213503982334601" + "d" == "213503982334601d";
    assert "213503982334602" + "d" == "213503982334602d";
  }

  lemma DaysOverflow(days: nat, overflowChecks: bool)
    requires days <= U64_MAX
    ensures var seconds := days * 86400;
            ParseDuration(Decimal(days) + "d", overflowChecks)
              == if seconds > U64_MAX && overflowChecks then Panic else Seconds(seconds % U64_SIZE)
  {
    hide ParseDuration, Decimal, Spells, Value;
    DecimalReadsBack(days);
    DigitsSpell(Decimal(days), "d");
    DurationExactIffFits(Decimal(days) + "d", Decimal(days), "d", overflowChecks);
  }
}
