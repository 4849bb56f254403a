/** Hexadecimal text and the numbers written in it: `boost::algorithm::hex` and `unhex`, `std::hex`
    output, and `std::strtoul` in base 16. */
module Hex {
  import opened Wrappers

  type byte = x: int | 0 <= x < 256

  const ULONG_RANGE := 0x1_0000_0000_0000_0000
  const ULONG_MAX := ULONG_RANGE - 1

  datatype HexError = NonHexInput | NotEnoughInput

  predicate IsHexDigit(c: char) {
    '0' <= c <= '9' || 'a' <= c <= 'f' || 'A' <= c <= 'F'
  }

  function DigitValue(c: char): (v: nat)
    requires IsHexDigit(c)
    ensures v < 16
  {
    if c <= '9' then (c - '0') as nat
    else if c <= 'F' then 10 + (c - 'A') as nat
    else 10 + (c - 'a') as nat
  }

  function UpperDigit(v: nat): (c: char)
    requires v < 16
    ensures IsHexDigit(c) && DigitValue(c) == v
  {
    if v < 10 then '0' + v as char else 'A' + (v - 10) as char
  }

  function LowerDigit(v: nat): (c: char)
    requires v < 16
    ensures IsHexDigit(c) && DigitValue(c) == v
  {
    if v < 10 then '0' + v as char else 'a' + (v - 10) as char
  }

  /** `string_to_hex`: two upper-case digits a byte. */
  function StringToHex(s: seq<byte>): string {
    if s == [] then "" else [UpperDigit(s[0] / 16), UpperDigit(s[0] % 16)] + StringToHex(s[1..])
  }

  /** `hex_to_char_string`: digits of either case, in pairs; anything else throws. */
  function Unhex(hex: string): Result<seq<byte>, HexError> {
    if hex == "" then Success([])
    else if !IsHexDigit(hex[0]) then Failure(NonHexInput)
    else if |hex| == 1 then Failure(NotEnoughInput)
    else if !IsHexDigit(hex[1]) then Failure(NonHexInput)
    else
      var high, low := DigitValue(hex[0]), DigitValue(hex[1]);
      match Unhex(hex[2..])
      case Failure(e) => Failure(e)
      case Success(rest) => Success([16 * high + low] + rest)
  }

  /** Text has bytes exactly when its length is even and it has nothing but digits. */
  lemma {:induction false} UnhexIff(hex: string)
    ensures Unhex(hex).Success? <==>
            |hex| % 2 == 0 && forall c <- hex :: '0' <= c <= '9' || 'a' <= c <= 'f' || 'A' <= c <= 'F'
  {
    if |hex| >= 2 {
      UnhexIff(hex[2..]);
      assert hex == [hex[0], hex[1]] + hex[2..];
      if IsHexDigit(hex[0]) && IsHexDigit(hex[1]) {
        assert Unhex(hex).Success? == Unhex(hex[2..]).Success? && |hex| % 2 == |hex[2..]| % 2;
        assert forall c <- hex :: c == hex[0] || c == hex[1] || c in hex[2..];
        assert forall c <- hex[2..] :: c in hex;
      } else {
        assert hex[0] in hex && hex[1] in hex;
      }
    } else if |hex| == 1 {
      assert hex == [hex[0]];
    }
  }

  /** Of text of even length only a character that is not a digit is an error. */
  lemma {:induction false} EvenTextFails(hex: string)
    requires |hex| % 2 == 0
    ensures Unhex(hex).Failure? ==> Unhex(hex).error == NonHexInput
  {
    if hex != "" {
      EvenTextFails(hex[2..]);
    }
  }

  /** The client writes ids in upper case. */
  lemma {:induction false} IdsInUpperCase(s: seq<byte>)
    ensures forall c <- StringToHex(s) :: c in "0123456789ABCDEF"
  {
    if s != [] {
      IdsInUpperCase(s[1..]);
    }
  }

  /** This text spells these bytes, in whatever case. */
  predicate Spells(hex: string, bytes: seq<byte>) {
    Unhex(hex) == Success(bytes)
  }

  lemma {:induction false} HexSpells(s: seq<byte>)
    ensures Spells(StringToHex(s), s)
    ensures |StringToHex(s)| == 2 * |s|
  {
    if s != [] {
      HexSpells(s[1..]);
      assert StringToHex(s)[2..] == StringToHex(s[1..]);
      assert s == [s[0]] + s[1..];
    }
  }

  lemma {:induction false} SpellsLength(hex: string, bytes: seq<byte>)
    requires Spells(hex, bytes)
    ensures |hex| == 2 * |bytes|
    ensures forall i | 0 <= i < |hex| :: IsHexDigit(hex[i])
  {
    if hex != "" {
      SpellsLength(hex[2..], bytes[1..]);
      forall i | 0 <= i < |hex| ensures IsHexDigit(hex[i]) {
        if i >= 2 {
          assert hex[i] == hex[2..][i - 2];
        }
      }
    }
  }

  lemma {:induction false} SpellsConcat(a: string, b: string, s: seq<byte>, t: seq<byte>)
    requires Spells(a, s) && Spells(b, t)
    ensures Spells(a + b, s + t)
  {
    if a == "" {
      assert a + b == b && s + t == t;
    } else {
      assert (a + b)[2..] == a[2..] + b;
      SpellsConcat(a[2..], b, s[1..], t);
      assert s + t == [s[0]] + (s[1..] + t);
    }
  }

  lemma {:induction false} SpellsSplit(hex: string, s: seq<byte>, t: seq<byte>)
    requires Spells(hex, s + t)
    ensures 2 * |s| <= |hex| && Spells(hex[..2 * |s|], s) && Spells(hex[2 * |s|..], t)
  {
    SpellsLength(hex, s + t);
    if s == [] {
      assert s + t == t && hex[0..] == hex;
    } else {
      assert (s + t)[1..] == s[1..] + t;
      SpellsSplit(hex[2..], s[1..], t);
      assert hex[2..][..2 * |s[1..]|] == hex[..2 * |s|][2..];
      assert (s + t)[0] == s[0] && s == [s[0]] + s[1..];
      assert hex[2..][2 * |s[1..]|..] == hex[2 * |s|..];
    }
  }

  // Numbers

  function Power(base: nat, exponent: nat): nat {
    if exponent == 0 then 1 else base * Power(base, exponent - 1)
  }

  /** The big-endian number these bytes hold. */
  function Value(bytes: seq<byte>): nat {
    if bytes == [] then 0 else 256 * Value(bytes[..|bytes| - 1]) + bytes[|bytes| - 1]
  }

  /** The lowest `width` bytes of a number, big-endian. */
  function BigEndian(n: nat, width: nat): (r: seq<byte>)
    ensures |r| == width
  {
    if width == 0 then [] else BigEndian(n / 256, width - 1) + [n % 256]
  }

  lemma {:induction false} ValueOfBigEndian(n: nat, width: nat)
    requires n < Power(256, width)
    ensures Value(BigEndian(n, width)) == n
  {
    if width > 0 {
      ValueOfBigEndian(n / 256, width - 1);
      var bytes := BigEndian(n, width);
      assert bytes[..|bytes| - 1] == BigEndian(n / 256, width - 1);
    }
  }

  /** A 64-bit number fits in a 256-bit word. */
  lemma SizeFitsWord(n: nat)
    requires n < ULONG_RANGE
    ensures Value(BigEndian(n, 32)) == n
  {
    Power256(8, 24);
    assert Power(256, 2) == 0x1_0000;
    Power256(2, 2);
    Power256(4, 4);
    assert Power(256, 8) == ULONG_RANGE;
    PowerPositive(24);
    assert n < Power(256, 32) by {
      assert Power(256, 8) * Power(256, 24) >= Power(256, 8) * 1;
    }
    ValueOfBigEndian(n, 32);
  }

  lemma PowerPositive(k: nat)
    ensures Power(256, k) >= 1
  {
  }

  lemma {:induction false} Power256(a: nat, b: nat)
    ensures Power(256, a + b) == Power(256, a) * Power(256, b)
  {
    if a > 0 {
      Power256(a - 1, b);
      assert 256 * (Power(256, a - 1) * Power(256, b)) == (256 * Power(256, a - 1)) * Power(256, b);
    }
  }

  /** `std::hex` output of an unsigned number: lower case, no leading zeros. */
  function ToHex(n: nat): string {
    if n < 16 then [LowerDigit(n)] else ToHex(n / 16) + [LowerDigit(n % 16)]
  }

  function Zeros(n: nat): string {
    seq(n, _ => '0')
  }

  /** `size_type_to_hex`. The cast to `int` keeps the low 32 bits, and `std::hex` prints an `int` as the
      unsigned number with those bits. */
  function SizeTypeToHex(i: nat, width: nat): string {
    var digits := ToHex(i % 0x1_0000_0000);
    (if |digits| < width then Zeros(width - |digits|) else "") + digits
  }

  /** Exactly `width` digits. */
  function FixedHex(n: nat, width: nat): (r: string)
    ensures |r| == width
  {
    if width == 0 then "" else FixedHex(n / 16, width - 1) + [LowerDigit(n % 16)]
  }

  lemma {:induction false} FixedHexOfZero(width: nat)
    ensures FixedHex(0, width) == Zeros(width)
  {
    if width > 0 {
      FixedHexOfZero(width - 1);
    }
  }

  lemma {:induction false} PaddedIsFixed(n: nat, width: nat)
    requires n < Power(16, width) && width > 0
    ensures |ToHex(n)| <= width
    ensures Zeros(width - |ToHex(n)|) + ToHex(n) == FixedHex(n, width)
  {
    if n < 16 {
      FixedHexOfZero(width - 1);
    } else {
      assert width > 1;
      PaddedIsFixed(n / 16, width - 1);
      assert FixedHex(n, width) == FixedHex(n / 16, width - 1) + [LowerDigit(n % 16)];
    }
  }

  lemma Nibbles(n: nat)
    ensures n / 16 / 16 == n / 256
    ensures 16 * (n / 16 % 16) + n % 16 == n % 256
  {
    assert n == 256 * (n / 16 / 16) + (16 * (n / 16 % 16) + n % 16);
  }

  lemma PairSpells(high: char, low: char)
    requires IsHexDigit(high) && IsHexDigit(low)
    ensures Spells([high, low], [16 * DigitValue(high) + DigitValue(low)])
  {
    var b: byte := 16 * DigitValue(high) + DigitValue(low);
    assert [high, low][2..] == "" && [b] + [] == [b];
  }

  lemma {:induction false} FixedHexSpells(n: nat, width: nat)
    ensures Spells(FixedHex(n, 2 * width), BigEndian(n, width))
  {
    if width > 0 {
      FixedHexSpells(n / 256, width - 1);
      var high, low := LowerDigit(n / 16 % 16), LowerDigit(n % 16);
      assert FixedHex(n, 2 * width) == FixedHex(n / 16, 2 * width - 1) + [low];
      assert FixedHex(n / 16, 2 * width - 1) == FixedHex(n / 16 / 16, 2 * width - 2) + [high];
      Nibbles(n);
      PairSpells(high, low);
      SpellsConcat(FixedHex(n / 256, 2 * width - 2), [high, low], BigEndian(n / 256, width - 1), [n % 256]);
      assert FixedHex(n, 2 * width) == FixedHex(n / 256, 2 * width - 2) + [high, low];
    }
  }

  lemma Power16To8()
    ensures Power(16, 8) == 0x1_0000_0000
  {
    assert Power(16, 2) == 256;
    assert Power(16, 4) == 0x1_0000;
    assert Power(16, 6) == 0x100_0000;
  }

  lemma {:induction false} Power16Grows(m: nat, n: nat)
    requires m <= n
    ensures Power(16, m) <= Power(16, n)
  {
    if m < n {
      Power16Grows(m, n - 1);
    }
  }

  /** The low 32 bits of a size, spelled in `width` bytes. */
  lemma SizeSpells(i: nat, width: nat)
    requires width >= 4
    ensures Spells(SizeTypeToHex(i, 2 * width), BigEndian(i % 0x1_0000_0000, width))
  {
    Power16To8();
    Power16Grows(8, 2 * width);
    PaddedIsFixed(i % 0x1_0000_0000, 2 * width);
    FixedHexSpells(i % 0x1_0000_0000, width);
    assert "" + ToHex(i % 0x1_0000_0000) == ToHex(i % 0x1_0000_0000);
    assert Zeros(0) == "";
  }

  /** The client writes sizes in lower case. */
  lemma {:induction false} DigitsInLowerCase(n: nat)
    ensures forall c <- ToHex(n) :: c in "0123456789abcdef"
  {
    if n >= 16 {
      DigitsInLowerCase(n / 16);
    }
  }

  lemma SizesInLowerCase(i: nat, width: nat)
    ensures forall c <- SizeTypeToHex(i, width) :: c in "0123456789abcdef"
  {
    DigitsInLowerCase(i % 0x1_0000_0000);
    hide ToHex;
  }

  lemma SizeTextLength(i: nat, width: nat)
    requires width >= 4
    ensures |SizeTypeToHex(i, 2 * width)| == 2 * width
  {
    SizeSpells(i, width);
    SpellsLength(SizeTypeToHex(i, 2 * width), BigEndian(i % 0x1_0000_0000, width));
  }

  // std::strtoul

  predicate IsSpace(c: char) {
    c == ' ' || '\U{09}' <= c <= '\U{0D}'
  }

  function SkipSpaces(s: string): string {
    if s != "" && IsSpace(s[0]) then SkipSpaces(s[1..]) else s
  }

  /** The number spelled by the leading hex digits. */
  function LeadingNumber(s: string, soFar: nat): nat {
    if s == "" || !IsHexDigit(s[0]) then soFar else LeadingNumber(s[1..], 16 * soFar + DigitValue(s[0]))
  }

  /** `std::strtoul(s, nullptr, 16)`: leading white space, sign and `0x` are skipped, a number out of range
      gives `ULONG_MAX`, and a minus sign negates modulo 2^64. */
  function StrToUL(s: string): nat {
    var t := SkipSpaces(s);
    var negative := t != "" && t[0] == '-';
    var unsigned := if t != "" && (t[0] == '-' || t[0] == '+') then t[1..] else t;
    var prefixed := |unsigned| >= 3 && unsigned[0] == '0' && (unsigned[1] == 'x' || unsigned[1] == 'X') && IsHexDigit(unsigned[2]);
    var n := LeadingNumber(if prefixed then unsigned[2..] else unsigned, 0);
    if n > ULONG_MAX then ULONG_MAX else if negative then (ULONG_RANGE - n) % ULONG_RANGE else n
  }

  /** White space before the number is skipped. */
  lemma SpacesSkipped(c: char, s: string)
    requires c in " \t\n\U{0B}\U{0C}\r"
    ensures StrToUL([c] + s) == StrToUL(s)
  {
    assert ([c] + s)[1..] == s;
  }

  /** Digits up to the first other character; but for an `x` after them, which could belong to a prefix. */
  predicate IsNumber(digits: string, rest: string) {
    && digits != "" && (forall c <- digits :: IsHexDigit(c))
    && (rest == "" || !(IsHexDigit(rest[0]) || rest[0] == 'x' || rest[0] == 'X'))
  }

  lemma NumberStarts(digits: string, rest: string)
    requires IsNumber(digits, rest)
    ensures var s := digits + rest;
            s != "" && IsHexDigit(s[0]) && !IsSpace(s[0]) && (|s| > 1 ==> s[1] != 'x' && s[1] != 'X')
  {
    var s := digits + rest;
    assert s[0] == digits[0] && digits[0] in digits;
    assert |s| > 1 ==> s[1] == (if |digits| > 1 then digits[1] else rest[0]);
    assert |digits| > 1 ==> digits[1] in digits;
  }

  /** What follows a number is ignored. */
  lemma PlainNumber(digits: string, rest: string)
    requires IsNumber(digits, rest)
    ensures StrToUL(digits + rest) == Clamp(LeadingNumber(digits, 0))
  {
    NumberStarts(digits, rest);
    NumberStops(digits, rest, 0);
    hide LeadingNumber;
  }

  /** A number may have a sign; a minus sign gives its negative modulo 2^64. */
  lemma SignedNumber(digits: string, rest: string, sign: char)
    requires IsNumber(digits, rest) && (sign == '+' || sign == '-')
    ensures StrToUL([sign] + (digits + rest)) ==
            if LeadingNumber(digits, 0) >= ULONG_RANGE then ULONG_MAX
            else if sign == '-' then (ULONG_RANGE - LeadingNumber(digits, 0)) % ULONG_RANGE
            else LeadingNumber(digits, 0)
  {
    var s := digits + rest;
    var t := [sign] + s;
    NumberStarts(digits, rest);
    NumberStops(digits, rest, 0);
    assert SkipSpaces(t) == t && t[0] == sign && t[1..] == s;
    hide LeadingNumber, SkipSpaces, IsHexDigit, IsSpace, IsNumber;
  }

  /** A number may have a prefix, of either case. */
  lemma PrefixedNumber(digits: string, rest: string)
    requires IsNumber(digits, rest)
    ensures StrToUL("0x" + (digits + rest)) == StrToUL("0X" + (digits + rest)) == Clamp(LeadingNumber(digits, 0))
  {
    var s := digits + rest;
    NumberStarts(digits, rest);
    NumberStops(digits, rest, 0);
    hide LeadingNumber;
    assert ("0x" + s)[2..] == s && ("0X" + s)[2..] == s;
  }

  /** Text that does not start with a number gives 0. */
  lemma NothingToRead(rest: string)
    requires rest == "" || !(IsHexDigit(rest[0]) || rest[0] in " \t\n\U{0B}\U{0C}\r+-")
    ensures StrToUL(rest) == 0
  {
  }

  lemma {:induction false} NumberStops(digits: string, rest: string, soFar: nat)
    requires forall c <- digits :: IsHexDigit(c)
    requires rest == "" || !IsHexDigit(rest[0])
    ensures LeadingNumber(digits + rest, soFar) == LeadingNumber(digits, soFar)
  {
    if digits == "" {
      assert digits + rest == rest;
    } else {
      assert digits[0] in digits && (digits + rest)[1..] == digits[1..] + rest;
      NumberStops(digits[1..], rest, 16 * soFar + DigitValue(digits[0]));
    }
  }

  function Clamp(n: nat): nat {
    if n > ULONG_MAX then ULONG_MAX else n
  }

  lemma PairNumber(pair: string, b: byte, soFar: nat)
    requires Spells(pair, [b])
    ensures LeadingNumber(pair, soFar) == 256 * soFar + b
  {
    SpellsLength(pair, [b]);
    PairSpells(pair[0], pair[1]);
    assert pair == [pair[0], pair[1]];
    assert [b] == [16 * DigitValue(pair[0]) + DigitValue(pair[1])];
    assert pair[1..][1..] == "";
    assert LeadingNumber(pair[1..], 16 * soFar + DigitValue(pair[0])) == 16 * (16 * soFar + DigitValue(pair[0])) + DigitValue(pair[1]);
  }

  lemma Regroup(a: nat, p: nat, v: nat, b: nat)
    ensures 256 * (a * p + v) + b == a * (256 * p) + (256 * v + b)
  {
  }

  lemma {:induction false} LeadingNumberSplit(hex: string, bytes: seq<byte>, soFar: nat)
    requires Spells(hex, bytes)
    ensures LeadingNumber(hex, soFar) == soFar * Power(256, |bytes|) + Value(bytes)
    decreases |bytes|
  {
    SpellsLength(hex, bytes);
    if bytes != [] {
      var last := |bytes| - 1;
      assert bytes == bytes[..last] + [bytes[last]];
      SpellsSplit(hex, bytes[..last], [bytes[last]]);
      var front, pair := hex[..2 * last], hex[2 * last..];
      assert hex == front + pair;
      LeadingNumberSplit(front, bytes[..last], soFar);
      LeadingNumberAppend(front, pair, soFar);
      PairNumber(pair, bytes[last], LeadingNumber(front, soFar));
      Regroup(soFar, Power(256, last), Value(bytes[..last]), bytes[last]);
    }
  }

  lemma {:induction false} LeadingNumberAppend(a: string, b: string, soFar: nat)
    requires forall i | 0 <= i < |a| :: IsHexDigit(a[i])
    ensures LeadingNumber(a + b, soFar) == LeadingNumber(b, LeadingNumber(a, soFar))
  {
    if a == "" {
      assert a + b == b;
    } else {
      assert (a + b)[1..] == a[1..] + b;
      LeadingNumberAppend(a[1..], b, 16 * soFar + DigitValue(a[0]));
    }
  }

  /** On hex digits `strtoul` reads the number they spell, up to its range. */
  lemma StrToULReads(hex: string, bytes: seq<byte>)
    requires Spells(hex, bytes)
    ensures StrToUL(hex) == Clamp(Value(bytes))
  {
    SpellsLength(hex, bytes);
    LeadingNumberSplit(hex, bytes, 0);
    assert SkipSpaces(hex) == hex;
  }
}
