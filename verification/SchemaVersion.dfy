/** Schema versions: the "major.minor" pattern, its numbers, and the compatibility check. */
module SchemaVersion {

  import opened Wrappers
  import opened Collections

  // ----- Numerals -----

  predicate IsDigit(c: char) {
    '0' <= c <= '9'
  }

  /** The group (0|[1-9]\d*) of the pattern. */
  predicate Numeral(s: string) {
    s == "0" || (|s| > 0 && IsDigit(s[0]) && s[0] != '0' && AllDigits(s))
  }

  predicate AllDigits(s: string) {
    forall i :: 0 <= i < |s| ==> IsDigit(s[i])
  }

  function DigitValue(c: char): (r: nat)
    requires IsDigit(c)
    ensures r < 10
  {
    (c as int) - ('0' as int)
  }

  function DigitChar(d: nat): (r: char)
    requires d < 10
    ensures IsDigit(r) && DigitValue(r) == d
  {
    ('0' as int + d) as char
  }

  /** The natural number a digit string denotes. */
  function Value(s: string): nat
    requires AllDigits(s)
  {
    if s == [] then 0 else 10 * Value(Init(s)) + DigitValue(Last(s))
  }

  function Print(n: nat): (r: string)
    ensures |r| > 0 && AllDigits(r)
  {
    if n < 10 then [DigitChar(n)] else Print(n / 10) + [DigitChar(n % 10)]
  }

  lemma {:induction false} PrintIsNumeral(n: nat)
    ensures Numeral(Print(n)) && Value(Print(n)) == n
    ensures Print(n) == "0" <==> n == 0
  {
    var s := Print(n);
    if n >= 10 {
      PrintIsNumeral(n / 10);
      assert Init(s) == Print(n / 10) && Last(s) == DigitChar(n % 10);
      assert s[0] == Print(n / 10)[0];
    } else {
      assert Init(s) == [] && Last(s) == DigitChar(n);
    }
  }

  lemma {:induction false} PositiveValue(s: string)
    requires AllDigits(s) && |s| > 0 && s[0] != '0'
    ensures Value(s) >= 1
  {
    if |s| > 1 {
      assert Init(s)[0] == s[0];
      PositiveValue(Init(s));
    }
  }

  lemma PrintSnoc(m: nat, c: char)
    requires m >= 1 && IsDigit(c)
    ensures Print(10 * m + DigitValue(c)) == Print(m) + [c]
  {
    var n := 10 * m + DigitValue(c);
    assert n / 10 == m && n % 10 == DigitValue(c) && DigitChar(DigitValue(c)) == c;
  }

  lemma {:induction false} NumeralIsPrinted(s: string)
    requires Numeral(s)
    ensures AllDigits(s) && Print(Value(s)) == s
  {
    assert s == Init(s) + [Last(s)];
    if |s| == 1 {
      assert Init(s) == [];
      assert s == [DigitChar(DigitValue(Last(s)))];
    } else {
      var most := Init(s);
      assert most[0] == s[0] && forall i :: 0 <= i < |most| ==> most[i] == s[i];
      NumeralIsPrinted(most);
      PositiveValue(most);
      PrintSnoc(Value(most), Last(s));
    }
  }

  // ----- Numbers -----

  const TWO_53: nat := 9007199254740992

  datatype Number = Finite(n: int) | Infinity

  /** A whole number is halved until it fits 53 bits: how often, what is left, the step between
      doubles of its size, and the bits cut off. */
  function Halvings(n: nat): nat {
    if n < TWO_53 then 0 else 1 + Halvings(n / 2)
  }

  function Significand(n: nat): nat {
    if n < TWO_53 then n else Significand(n / 2)
  }

  function Step(n: nat): (r: nat)
    ensures r >= 1
  {
    if n < TWO_53 then 1 else 2 * Step(n / 2)
  }

  function CutOff(n: nat): nat {
    if n < TWO_53 then 0 else 2 * CutOff(n / 2) + n % 2
  }

  lemma {:induction false} Decomposes(n: nat)
    ensures n == Significand(n) * Step(n) + CutOff(n) && CutOff(n) < Step(n)
    ensures Significand(n) < TWO_53
    ensures n >= TWO_53 ==> Significand(n) * Step(n) >= TWO_53
  {
    if n >= TWO_53 {
      Decomposes(n / 2);
      assert Significand(n) * Step(n) == 2 * (Significand(n / 2) * Step(n / 2));
      assert n / 2 < TWO_53 ==> Significand(n / 2) * Step(n / 2) == n / 2;
    }
  }

  /** The nearest multiple of the step, ties to the even one. */
  function Rounded(n: nat): nat {
    var q, u, r := Significand(n), Step(n), CutOff(n);
    if 2 * r < u || (2 * r == u && q % 2 == 0) then q * u else q * u + u
  }

  /** The largest finite double lies below 2^1024, which is 971 halvings above 53 bits. */
  const MAX_HALVINGS := 971

  function ToNumber(n: nat): Number {
    if Halvings(n) > MAX_HALVINGS || (Halvings(n) == MAX_HALVINGS && Rounded(n) >= TWO_53 * Step(n))
    then Infinity else Finite(Rounded(n))
  }

  // ----- What the rounding does -----

  function Pow2(k: nat): (r: nat)
    ensures r >= 1
  {
    if k == 0 then 1 else 2 * Pow2(k - 1)
  }

  lemma {:induction false} Pow2Grows(a: nat, b: nat)
    requires a <= b
    ensures Pow2(a) <= Pow2(b)
  {
    if a < b {
      Pow2Grows(a, b - 1);
    }
  }

  /** Above 2^53 the step is the power of two that leaves a significand of exactly 53 bits. */
  lemma {:induction false} StepIsExact(n: nat)
    ensures Step(n) == Pow2(Halvings(n))
    ensures n >= 9007199254740992 ==> 4503599627370496 * Step(n) <= n < 9007199254740992 * Step(n)
    ensures n < 9007199254740992 ==> Step(n) == 1
    ensures n >= 9007199254740992 ==> Significand(n) >= 4503599627370496
  {
    if n >= TWO_53 {
      StepIsExact(n / 2);
    }
  }

  /** A multiple of the step by an even number. */
  ghost predicate EvenMultiple(m: nat, u: nat) {
    exists q: nat :: q % 2 == 0 && m == q * u
  }

  lemma {:induction false} TiesGoToEven(n: nat)
    requires 2 * CutOff(n) == Step(n)
    ensures EvenMultiple(Rounded(n), Step(n))
  {
    var q, u := Significand(n), Step(n);
    NextMultiple(q, u);
    var even := if q % 2 == 0 then q else q + 1;
    assert Rounded(n) == even * u;
  }

  lemma BesideMultiples(q: nat, k: nat, u: nat)
    ensures k * u <= q * u || k * u >= q * u + u
  {
    if k <= q {
      TimesAtMost(k, q, u);
    } else {
      TimesAtMost(q + 1, k, u);
      NextMultiple(q, u);
    }
  }

  /** No multiple of the step is nearer than the one chosen, and of two equally near the even one is. */
  lemma {:induction false} RoundsToNearest(n: nat, k: nat)
    ensures Distance(n, Rounded(n)) <= Distance(n, k * Step(n))
    ensures Distance(n, Rounded(n)) == Distance(n, k * Step(n)) && k * Step(n) != Rounded(n) ==>
              EvenMultiple(Rounded(n), Step(n))
  {
    Decomposes(n);
    BesideMultiples(Significand(n), k, Step(n));
    NearestOf(n, Significand(n) * Step(n), Step(n), CutOff(n), k * Step(n), Significand(n) % 2 == 0);
    if 2 * CutOff(n) == Step(n) {
      TiesGoToEven(n);
    }
  }

  lemma NextMultiple(q: nat, u: nat)
    ensures (q + 1) * u == q * u + u
  {
  }

  lemma NearestOf(n: nat, floor: nat, u: nat, r: nat, other: nat, even: bool)
    requires n == floor + r && r < u && (other <= floor || other >= floor + u)
    ensures var chosen := if 2 * r < u || (2 * r == u && even) then floor else floor + u;
            Distance(n, chosen) <= Distance(n, other)
            && (Distance(n, chosen) == Distance(n, other) && other != chosen ==> 2 * r == u)
  {
  }

  function Distance(a: int, b: int): nat {
    if a < b then b - a else a - b
  }

  lemma TimesAtMost(a: nat, b: nat, u: nat)
    requires a <= b
    ensures a * u <= b * u
  {
  }

  lemma {:induction false} OverflowAt(n: nat, k: nat)
    ensures Halvings(n) > k || (Halvings(n) == k && Rounded(n) >= TWO_53 * Step(n)) <==>
            Rounded(n) >= TWO_53 * Pow2(k)
  {
    Decomposes(n);
    StepIsExact(n);
    var q, u, h := Significand(n), Step(n), Halvings(n);
    NextMultiple(q, u);
    TimesAtMost(q + 1, TWO_53, u);
    if h > k {
      Pow2Grows(k + 1, h);
      TimesAtMost(4503599627370496, q, u);
    } else if h < k {
      Pow2Grows(h + 1, k);
    }
  }

  /** A number overflows exactly when it rounds to 2^1024 or more. */
  lemma {:induction false} InfinityIff(n: nat, k: nat)
    requires k == 971
    ensures ToNumber(n) == Infinity <==> Rounded(n) >= 9007199254740992 * Pow2(k)
    ensures ToNumber(n) != Infinity ==> ToNumber(n) == Finite(Rounded(n))
  {
    OverflowAt(n, k);
  }

  /** Whole numbers a double holds exactly. */
  predicate Representable(n: nat) {
    Halvings(n) <= MAX_HALVINGS && CutOff(n) == 0
  }

  /** The number read is the number written exactly when a double can hold it. */
  lemma {:induction false} ReadExactlyIff(n: nat)
    ensures ToNumber(n) == Finite(n) <==> Representable(n)
  {
    Decomposes(n);
    TimesLess(Significand(n), TWO_53, Step(n));
  }

  lemma TimesLess(a: nat, b: nat, u: nat)
    requires a < b && u >= 1
    ensures a * u < b * u
  {
    assert (b - a) * u >= 1;
  }

  /** No large number is read as a small one. */
  lemma {:induction false} LargeStaysLarge(n: nat)
    requires n >= TWO_53
    ensures ToNumber(n) == Infinity || ToNumber(n).n >= TWO_53
  {
    Decomposes(n);
  }

  // ----- Parsing -----

  datatype Parsed = Parsed(major: Number, minor: Number)

  /** Where the leading digits end. */
  function DigitsEnd(s: string): (r: nat)
    ensures r <= |s| && (r < |s| ==> !IsDigit(s[r]))
    ensures forall i :: 0 <= i < r ==> IsDigit(s[i])
  {
    if s == [] || !IsDigit(s[0]) then 0 else 1 + DigitsEnd(s[1..])
  }

  /** The two groups of the match, if the whole string matches the pattern. */
  function Match(s: string): (r: Option<(string, string)>) {
    var i := DigitsEnd(s);
    if i < |s| && s[i] == '.' && Numeral(s[..i]) && Numeral(s[i + 1..]) then Some((s[..i], s[i + 1..])) else None
  }

  function ParseSchemaVersion(s: string): (r: Option<Parsed>) {
    match Match(s)
    case None => None
    case Some((a, b)) =>
      Some(Parsed(ToNumber(Value(a)), ToNumber(Value(b))))
  }

  lemma {:induction false} DigitsEndAt(a: string, rest: string)
    requires AllDigits(a) && (rest == [] || !IsDigit(rest[0]))
    ensures DigitsEnd(a + rest) == |a|
  {
    if a == [] {
      assert a + rest == rest;
    } else {
      assert (a + rest)[1..] == a[1..] + rest;
      DigitsEndAt(a[1..], rest);
    }
  }

  /** The matcher accepts exactly two numerals around a point, and splits there. */
  lemma {:induction false} MatchExact(s: string, a: string, b: string)
    ensures Match(s) == Some((a, b)) <==> Numeral(a) && Numeral(b) && s == a + "." + b
  {
    if Match(s) == Some((a, b)) {
      var i := DigitsEnd(s);
      assert s == s[..i] + [s[i]] + s[i + 1..];
    }
    if Numeral(a) && Numeral(b) && s == a + "." + b {
      DigitsEndAt(a, "." + b);
      assert s == a + ("." + b);
      assert s[..|a|] == a && s[|a|] == '.' && s[|a| + 1..] == b;
    }
  }

  function PrintVersion(major: nat, minor: nat): string {
    Print(major) + "." + Print(minor)
  }

  /** Exactly the canonical decimal forms are accepted, each with the numbers a double makes of them. */
  lemma {:induction false} AcceptsExactlyCanonical(s: string, p: Parsed)
    ensures ParseSchemaVersion(s) == Some(p) <==>
            exists major: nat, minor: nat ::
                s == PrintVersion(major, minor) && p == Parsed(ToNumber(major), ToNumber(minor))
  {
    if ParseSchemaVersion(s) == Some(p) {
      var (a, b) := Match(s).value;
      MatchExact(s, a, b);
      NumeralIsPrinted(a);
      NumeralIsPrinted(b);
      assert s == PrintVersion(Value(a), Value(b));
    }
    if major: nat, minor: nat :| s == PrintVersion(major, minor) && p == Parsed(ToNumber(major), ToNumber(minor)) {
      ParsePrinted(major, minor);
    }
  }

  lemma {:induction false} ParsePrinted(major: nat, minor: nat)
    ensures ParseSchemaVersion(PrintVersion(major, minor)) == Some(Parsed(ToNumber(major), ToNumber(minor)))
  {
    PrintIsNumeral(major);
    PrintIsNumeral(minor);
    MatchExact(PrintVersion(major, minor), Print(major), Print(minor));
  }

  lemma SampleAccepted()
    ensures ParseSchemaVersion("1.0") == Some(Parsed(Finite(1), Finite(0)))
  {
    ParsePrinted(1, 0);
    assert Print(1) == "1" && Print(0) == "0" && "1" + "." + "0" == "1.0";
  }

  lemma SampleOfTwoDigits()
    ensures ParseSchemaVersion("10.3") == Some(Parsed(Finite(10), Finite(3)))
  {
    ParsePrinted(10, 3);
    assert Print(1) == "1" && Print(10) == "10" && Print(3) == "3" && "10" + "." + "3" == "10.3";
  }

  /** What does not go on with a point and a numeral after its leading digits is refused. */
  lemma Refused(a: string, rest: string)
    requires AllDigits(a) && (rest == [] || !IsDigit(rest[0]))
    requires rest == [] || rest[0] != '.' || !Numeral(a) || !Numeral(rest[1..])
    ensures ParseSchemaVersion(a + rest) == None
  {
    DigitsEndAt(a, rest);
    var s := a + rest;
    assert s[..|a|] == a;
    if rest != [] {
      assert s[|a|] == rest[0] && s[|a| + 1..] == rest[1..];
    }
  }

  /** The documented samples that are refused: no point, two points, a prefix, a suffix, a leading zero. */
  lemma SamplesRefused()
    ensures ParseSchemaVersion("1") == None && ParseSchemaVersion("1.0.0") == None && ParseSchemaVersion("v1.0") == None
    ensures ParseSchemaVersion("1.0a") == None && ParseSchemaVersion("01.0") == None
  {
    Refused("1", "");
    assert ".0.0"[1..] == "0.0" && !IsDigit("0.0"[1]);
    Refused("1", ".0.0");
    Refused("", "v1.0");
    assert ".0a"[1..] == "0a" && !IsDigit("0a"[1]);
    Refused("1", ".0a");
    Refused("01", ".0");
    assert "1" + "" == "1" && "1" + ".0.0" == "1.0.0" && "" + "v1.0" == "v1.0";
    assert "1" + ".0a" == "1.0a" && "01" + ".0" == "01.0";
  }

  /** Parsing undoes printing exactly when both components are representable, in particular below
      two to the fifty-third. */
  lemma {:induction false} RoundTripIff(major: nat, minor: nat)
    ensures ParseSchemaVersion(PrintVersion(major, minor)) == Some(Parsed(Finite(major), Finite(minor))) <==>
            Representable(major) && Representable(minor)
  {
    ParsePrinted(major, minor);
    ReadExactlyIff(major);
    ReadExactlyIff(minor);
  }

  /** Accepted strings with representable components parse alike only if they are the same string. */
  lemma {:induction false} InjectiveOnRepresentable(a: nat, b: nat, c: nat, d: nat)
    requires Representable(a) && Representable(b) && Representable(c) && Representable(d)
    requires ParseSchemaVersion(PrintVersion(a, b)) == ParseSchemaVersion(PrintVersion(c, d))
    ensures PrintVersion(a, b) == PrintVersion(c, d)
  {
    RoundTripIff(a, b);
    RoundTripIff(c, d);
  }

  lemma ReadAlike()
    ensures ToNumber(TWO_53) == ToNumber(TWO_53 + 1)
  {
    var half := TWO_53 / 2;
    assert (TWO_53 + 1) / 2 == half && TWO_53 % 2 == 0 && (TWO_53 + 1) % 2 == 1 && half % 2 == 0;
    assert Significand(half) == half && Step(half) == 1 && CutOff(half) == 0 && Halvings(half) == 0;
  }

  /** Beyond that two versions can be confused: 2^53 + 1 reads as 2^53. */
  lemma {:induction false} ConfusedVersions(minor: nat)
    ensures PrintVersion(TWO_53, minor) != PrintVersion(TWO_53 + 1, minor)
    ensures ParseSchemaVersion(PrintVersion(TWO_53, minor)) == ParseSchemaVersion(PrintVersion(TWO_53 + 1, minor))
  {
    ParsePrinted(TWO_53, minor);
    ParsePrinted(TWO_53 + 1, minor);
    ReadAlike();
    PrintIsNumeral(TWO_53);
    PrintIsNumeral(TWO_53 + 1);
    PrintIsNumeral(minor);
    MatchExact(PrintVersion(TWO_53, minor), Print(TWO_53), Print(minor));
    MatchExact(PrintVersion(TWO_53 + 1, minor), Print(TWO_53 + 1), Print(minor));
  }

  // ----- Compatibility -----

  datatype Reason = NoReason | InvalidFormat | MajorMismatch(expected: Number, got: Number)

  datatype Validation = Validation(compatible: bool, parsed: Parsed, reason: Reason)

  function ValidatePacketVersion(version: string, expectedMajor: Number): (r: Validation) {
    match ParseSchemaVersion(version)
    case None => Validation(false, Parsed(Finite(-1), Finite(-1)), InvalidFormat)
    case Some(parsed) =>
      if parsed.major != expectedMajor
      then Validation(false, parsed, MajorMismatch(expectedMajor, parsed.major))
      else Validation(true, parsed, NoReason)
  }

  /** A packet is compatible exactly when its version is canonical and its major reads as the expected
      number; below two to the fifty-third that means exactly the expected major. */
  lemma {:induction false} CompatibleIff(version: string, expected: Number)
    ensures ValidatePacketVersion(version, expected).compatible <==>
            exists major: nat, minor: nat :: version == PrintVersion(major, minor) && ToNumber(major) == expected
    ensures expected.Finite? && 0 <= expected.n < TWO_53 ==>
              (ValidatePacketVersion(version, expected).compatible <==>
               exists minor: nat :: version == PrintVersion(expected.n, minor))
  {
    var r := ValidatePacketVersion(version, expected);
    if r.compatible {
      AcceptsExactlyCanonical(version, r.parsed);
      var major: nat, minor: nat :| version == PrintVersion(major, minor)
          && r.parsed == Parsed(ToNumber(major), ToNumber(minor));
      if major >= TWO_53 {
        LargeStaysLarge(major);
      } else {
        SmallReadsExactly(major);
      }
    }
    if major: nat, minor: nat :| version == PrintVersion(major, minor) && ToNumber(major) == expected {
      ParsePrinted(major, minor);
    }
    if expected.Finite? && 0 <= expected.n < TWO_53 {
      SmallReadsExactly(expected.n);
    }
  }

  lemma SmallReadsExactly(n: nat)
    requires n < TWO_53
    ensures ToNumber(n) == Finite(n)
  {
  }

  /** A refusal for another major names the one expected and the one found. */
  lemma MismatchSays(version: string, expected: Number)
    ensures ValidatePacketVersion(version, expected).reason.MajorMismatch? <==>
            ParseSchemaVersion(version).Some? && ParseSchemaVersion(version).value.major != expected
    ensures var r := ValidatePacketVersion(version, expected);
            && (r.reason.MajorMismatch? ==> r.reason.expected == expected && r.reason.got == r.parsed.major)
            && (ParseSchemaVersion(version).Some? ==> r.parsed == ParseSchemaVersion(version).value)
            && (r.compatible <==> r.reason == NoReason)
  {
  }

  /** The reason tells the two failures apart: the format marker appears just for non-canonical text. */
  lemma {:induction false} InvalidFormatIff(version: string, expected: Number)
    ensures ValidatePacketVersion(version, expected).reason == InvalidFormat <==>
            !exists major: nat, minor: nat :: version == PrintVersion(major, minor)
    ensures ValidatePacketVersion(version, expected).reason == InvalidFormat <==>
            ValidatePacketVersion(version, expected).parsed == Parsed(Finite(-1), Finite(-1))
  {
    var r := ValidatePacketVersion(version, expected);
    if major: nat, minor: nat :| version == PrintVersion(major, minor) {
      ParsePrinted(major, minor);
    }
    if r.reason != InvalidFormat {
      AcceptsExactlyCanonical(version, r.parsed);
    }
  }
}
