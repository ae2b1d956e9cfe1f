/** Decimal and hexadecimal text, as the inspect command's address parsers read it. */
module Digits {
  import opened Machine

  // ----- decimal ------------------------------------------------------------------

  predicate IsDecimal(c: char) {
    '0' <= c <= '9'
  }

  function DecimalValue(c: char): nat
    requires IsDecimal(c)
  {
    c as int - '0' as int
  }

  ghost predicate AllDecimal(s: string) {
    forall i :: 0 <= i < |s| ==> IsDecimal(s[i])
  }

  /** The decimal digits, and what each is worth. */
  lemma DecimalDigits(c: char)
    ensures IsDecimal(c) <==> c in "0123456789"
    ensures forall v: nat :: v < 10 && c == "0123456789"[v] ==> DecimalValue(c) == v
  {
  }

  /** The number a string of decimal digits denotes, without any bound. */
  ghost function Value(s: string): nat
    requires AllDecimal(s)
  {
    if s == [] then 0 else Value(s[..|s| - 1]) * 10 + DecimalValue(s[|s| - 1])
  }

  /** Digits from the left into an accumulator that never exceeds `max`. */
  function Accumulate(s: string, max: nat): Option<nat> {
    if s == [] then Some(0)
    else
      match Accumulate(s[..|s| - 1], max)
      case None => None
      case Some(acc) =>
        var c := s[|s| - 1];
        if !IsDecimal(c) || max < acc * 10 || max < acc * 10 + DecimalValue(c) then None
        else Some(acc * 10 + DecimalValue(c))
  }

  function WithoutPlus(s: string): string {
    if s != [] && s[0] == '+' then s[1..] else s
  }

  /** An unsigned integer bounded by `max`: an optional plus sign and at least one digit. */
  function ParseInteger(s: string, max: nat): Option<nat> {
    if WithoutPlus(s) == [] then None else Accumulate(WithoutPlus(s), max)
  }

  function DecimalDigit(v: nat): char
    requires v < 10
  {
    '0' + v as char
  }

  function Decimal(n: nat): string {
    var digit := [DecimalDigit(n % 10)];
    if n < 10 then digit else Decimal(n / 10) + digit
  }

  /** The overflow-checked accumulator computes the unbounded value, or fails exactly when it
      exceeds the bound. */
  lemma {:induction false} AccumulateIsBoundedValue(s: string, max: nat)
    ensures Accumulate(s, max).Some? <==> AllDecimal(s) && Value(s) <= max
    ensures Accumulate(s, max).Some? ==> Accumulate(s, max).value == Value(s)
  {
    if s != [] {
      var front := s[..|s| - 1];
      AccumulateIsBoundedValue(front, max);
      assert s == front + [s[|s| - 1]];
    }
  }

  lemma ValueOneMore(s: string, v: nat)
    requires AllDecimal(s) && v < 10
    ensures AllDecimal(s + [DecimalDigit(v)]) && Value(s + [DecimalDigit(v)]) == Value(s) * 10 + v
  {
    var t := s + [DecimalDigit(v)];
    assert IsDecimal(DecimalDigit(v)) && DecimalValue(DecimalDigit(v)) == v;
    assert t[..|t| - 1] == s && t[|t| - 1] == DecimalDigit(v);
  }

  lemma {:induction false} DecimalDenotes(n: nat)
    ensures Decimal(n) != [] && AllDecimal(Decimal(n)) && Value(Decimal(n)) == n
  {
    if 10 <= n {
      DecimalDenotes(n / 10);
      ValueOneMore(Decimal(n / 10), n % 10);
      TensAndUnits(n);
    } else {
      ValueOneMore([], n);
      assert [] + [DecimalDigit(n)] == Decimal(n);
    }
  }

  lemma TensAndUnits(n: nat)
    ensures n / 10 * 10 + n % 10 == n
  {
  }

  /** `s` is the decimal text of `n`, with or without a plus sign and leading zeros. */
  ghost predicate Denotes(s: string, n: nat) {
    exists t :: (s == t || s == ['+'] + t) && t != [] && AllDecimal(t) && Value(t) == n
  }

  /** Exactly which strings are integers, and of what value. */
  lemma IntegerLanguage(s: string, max: nat, n: nat)
    ensures ParseInteger(s, max) == Some(n) <==> Denotes(s, n) && n <= max
  {
    var body := WithoutPlus(s);
    AccumulateIsBoundedValue(body, max);
    assert s == body || s == ['+'] + body;
    forall t | (s == t || s == ['+'] + t) && t != [] && AllDecimal(t) ensures t == body {
      assert IsDecimal(t[0]);
    }
  }

  lemma IntegerRoundTrip(n: nat, max: nat)
    requires n <= max
    ensures ParseInteger(Decimal(n), max) == Some(n)
  {
    DecimalDenotes(n);
    IntegerLanguage(Decimal(n), max, n);
    assert Denotes(Decimal(n), n);
  }

  function Pow10(k: nat): nat {
    if k == 0 then 1 else 10 * Pow10(k - 1)
  }

  lemma {:induction false} Pow10OfSum(j: nat, k: nat)
    ensures Pow10(j + k) == Pow10(j) * Pow10(k)
  {
    if 0 < k {
      Pow10OfSum(j, k - 1);
      assert Pow10(j + k) == 10 * Pow10(j + (k - 1));
    }
  }

  /** A number below `10^k` has at most `k` digits, and one from there on has more. */
  lemma {:induction false} DecimalLength(n: nat, k: nat)
    requires 1 <= k
    ensures |Decimal(n)| <= k <==> n < Pow10(k)
  {
    DecimalDenotes(n / 10);
    if 10 <= n && 1 < k {
      DecimalLength(n / 10, k - 1);
    } else if 10 <= n {
      assert Pow10(1) == 10;
    } else {
      Pow10AtLeastTen(k);
    }
  }

  lemma {:induction false} Pow10AtLeastTen(k: nat)
    requires 1 <= k
    ensures 10 <= Pow10(k)
  {
    if 1 < k {
      Pow10AtLeastTen(k - 1);
    }
  }

  // ----- hexadecimal -----------------------------------------------------------------

  predicate IsHex(c: char) {
    IsDecimal(c) || 'a' <= c <= 'f' || 'A' <= c <= 'F'
  }

  function HexValue(c: char): nat
    requires IsHex(c)
  {
    if c <= '9' then c as int - '0' as int
    else if c <= 'F' then c as int - 'A' as int + 10
    else c as int - 'a' as int + 10
  }

  function HexDigit(v: nat): char
    requires v < 16
  {
    if v < 10 then '0' + v as char else 'a' + (v - 10) as char
  }

  /** The digit written for each value, and the two that are read as it. */
  lemma HexDigits(v: nat)
    requires v < 16
    ensures HexDigit(v) == "0123456789abcdef"[v]
    ensures forall c :: IsHex(c) && HexValue(c) == v <==> c == "0123456789abcdef"[v] || c == "0123456789ABCDEF"[v]
  {
  }

  /** Pairs of hexadecimal digits of either case. */
  function FromHexDigits(s: string): Option<seq<u8>> {
    if s == [] then Some([])
    else if |s| == 1 || !IsHex(s[0]) || !IsHex(s[1]) then None
    else
      match FromHexDigits(s[2..])
      case None => None
      case Some(rest) => Some([HexValue(s[0]) * 16 + HexValue(s[1])] + rest)
  }

  function ToHex(bytes: seq<u8>): string {
    if bytes == [] then []
    else [HexDigit(bytes[0] / 16), HexDigit(bytes[0] % 16)] + ToHex(bytes[1..])
  }

  function LowerChar(c: char): char {
    if 'A' <= c <= 'F' then 'a' + (c - 'A') else c
  }

  function Lower(s: string): string {
    seq(|s|, i requires 0 <= i < |s| => LowerChar(s[i]))
  }

  ghost predicate AllHex(s: string) {
    forall i :: 0 <= i < |s| ==> IsHex(s[i])
  }

  lemma HexDigitOfValue(c: char, v: nat)
    requires v < 16
    ensures LowerChar(c) == HexDigit(v) <==> IsHex(c) && HexValue(c) == v
  {
  }

  /** The decoder inverts the lower-case encoder in both directions, whatever the case. */
  lemma {:induction false} HexLanguage(s: string, bytes: seq<u8>)
    ensures FromHexDigits(s) == Some(bytes) <==> Lower(s) == ToHex(bytes)
  {
    if bytes != [] && |s| >= 2 {
      HexLanguage(s[2..], bytes[1..]);
      HexDigitOfValue(s[0], bytes[0] / 16);
      HexDigitOfValue(s[1], bytes[0] % 16);
      assert Lower(s) == [LowerChar(s[0]), LowerChar(s[1])] + Lower(s[2..]);
      assert [bytes[0]] + bytes[1..] == bytes;
      assert ToHex(bytes)[2..] == ToHex(bytes[1..]) && Lower(s)[2..] == Lower(s[2..]);
    }
  }

  lemma {:induction false} HexAccepts(s: string)
    ensures FromHexDigits(s).Some? <==> AllHex(s) && |s| % 2 == 0
    ensures FromHexDigits(s).Some? ==> 2 * |FromHexDigits(s).value| == |s|
  {
    if |s| >= 2 {
      HexAccepts(s[2..]);
      assert s == [s[0], s[1]] + s[2..];
    }
  }

  lemma HexDigitIsHex(v: nat)
    requires v < 16
    ensures IsHex(HexDigit(v)) && LowerChar(HexDigit(v)) == HexDigit(v)
  {
  }

  lemma OneMoreHex(c: char, s: string)
    ensures AllHex([c] + s) <==> IsHex(c) && AllHex(s)
  {
    assert forall i :: 0 <= i < |s| ==> ([c] + s)[i + 1] == s[i];
    assert ([c] + s)[0] == c;
  }

  lemma ByteIsHex(b: u8)
    ensures b / 16 < 16
    ensures var hi, lo := HexDigit(b / 16), HexDigit(b % 16);
            IsHex(hi) && IsHex(lo) && LowerChar(hi) == hi && LowerChar(lo) == lo
  {
    HexDigitIsHex(b / 16);
    HexDigitIsHex(b % 16);
  }

  lemma TwoMoreHex(hi: char, lo: char, s: string)
    requires IsHex(hi) && IsHex(lo) && AllHex(s)
    ensures AllHex([hi, lo] + s)
  {
    OneMoreHex(lo, s);
    OneMoreHex(hi, [lo] + s);
    assert [hi] + ([lo] + s) == [hi, lo] + s;
  }

  lemma {:induction false} HexTextShape(bytes: seq<u8>)
    ensures |ToHex(bytes)| == 2 * |bytes| && AllHex(ToHex(bytes))
  {
    if bytes != [] {
      HexTextShape(bytes[1..]);
      ByteIsHex(bytes[0]);
      TwoMoreHex(HexDigit(bytes[0] / 16), HexDigit(bytes[0] % 16), ToHex(bytes[1..]));
    }
  }

  lemma LowerOfTwoMore(hi: char, lo: char, s: string)
    requires LowerChar(hi) == hi && LowerChar(lo) == lo && Lower(s) == s
    ensures Lower([hi, lo] + s) == [hi, lo] + s
  {
    assert forall i :: 0 <= i < |s| ==> LowerChar(s[i]) == Lower(s)[i] == s[i];
  }

  lemma {:induction false} HexTextIsLower(bytes: seq<u8>)
    ensures Lower(ToHex(bytes)) == ToHex(bytes)
  {
    if bytes != [] {
      HexTextIsLower(bytes[1..]);
      ByteIsHex(bytes[0]);
      LowerOfTwoMore(HexDigit(bytes[0] / 16), HexDigit(bytes[0] % 16), ToHex(bytes[1..]));
    }
  }

  lemma HexText(bytes: seq<u8>)
    ensures |ToHex(bytes)| == 2 * |bytes| && AllHex(ToHex(bytes))
    ensures Lower(ToHex(bytes)) == ToHex(bytes)
    ensures FromHexDigits(ToHex(bytes)) == Some(bytes)
  {
    HexTextShape(bytes);
    HexTextIsLower(bytes);
    HexLanguage(ToHex(bytes), bytes);
  }

  lemma HexPair(s: string, bytes: seq<u8>)
    requires |s| >= 2 && IsHex(s[0]) && IsHex(s[1])
    requires bytes != [] && bytes[0] == HexValue(s[0]) * 16 + HexValue(s[1])
    requires FromHexDigits(s[2..]) == Some(bytes[1..])
    ensures FromHexDigits(s) == Some(bytes)
  {
    assert FromHexDigits(s) == Some([HexValue(s[0]) * 16 + HexValue(s[1])] + bytes[1..]);
    assert [bytes[0]] + bytes[1..] == bytes;
  }

  // ----- hexadecimal as a library may read it ---------------------------------------------

  predicate IsBlank(c: char) {
    c == ' ' || c == '\t' || c == '\n' || c == '\r'
  }

  function WithoutBlanks(s: string): string {
    if s == [] then []
    else if IsBlank(s[0]) then WithoutBlanks(s[1..])
    else [s[0]] + WithoutBlanks(s[1..])
  }

  /** Hexadecimal digits, and blanks where they are skipped. */
  predicate HexOrBlank(s: string, skipsBlanks: bool) {
    forall i :: 0 <= i < |s| ==> IsHex(s[i]) || (skipsBlanks && IsBlank(s[i]))
  }

  lemma {:induction false} WithoutBlanksOfConcat(s: string, t: string)
    ensures WithoutBlanks(s + t) == WithoutBlanks(s) + WithoutBlanks(t)
  {
    if s == [] {
      assert s + t == t;
    } else {
      WithoutBlanksOfConcat(s[1..], t);
      assert (s + t)[1..] == s[1..] + t && (s + t)[0] == s[0];
      var rest := WithoutBlanks(s[1..]);
      assert [s[0]] + (rest + WithoutBlanks(t)) == ([s[0]] + rest) + WithoutBlanks(t);
    }
  }

  lemma {:induction false} NoBlanksToSkip(s: string)
    requires forall i :: 0 <= i < |s| ==> !IsBlank(s[i])
    ensures WithoutBlanks(s) == s
  {
    if s != [] {
      NoBlanksToSkip(s[1..]);
    }
  }

  // ----- the same in the characters themselves ---------------------------------------------

  const HEX_CHARACTERS := "0123456789abcdefABCDEF"

  const BLANK_CHARACTERS := " \t\n\r"

  /** Nothing but hexadecimal digits, and blanks where they are skipped. */
  ghost predicate HasOnlyDigits(s: string, skipsBlanks: bool) {
    forall i :: 0 <= i < |s| ==> s[i] in HEX_CHARACTERS || (skipsBlanks && s[i] in BLANK_CHARACTERS)
  }

  /** How many hexadecimal digits a text has. */
  ghost function DigitCount(s: string): nat {
    if s == [] then 0 else (if s[0] in HEX_CHARACTERS then 1 else 0) + DigitCount(s[1..])
  }

  lemma Characters(c: char)
    ensures IsHex(c) <==> c in HEX_CHARACTERS
    ensures IsBlank(c) <==> c in BLANK_CHARACTERS
  {
  }

  lemma OnlyDigits(s: string, skipsBlanks: bool)
    ensures HexOrBlank(s, skipsBlanks) <==> HasOnlyDigits(s, skipsBlanks)
  {
    forall i | 0 <= i < |s|
      ensures (IsHex(s[i]) <==> s[i] in HEX_CHARACTERS) && (IsBlank(s[i]) <==> s[i] in BLANK_CHARACTERS)
    {
      Characters(s[i]);
    }
  }

  lemma {:induction false} DigitsLeft(s: string)
    requires HexOrBlank(s, true)
    ensures |WithoutBlanks(s)| == DigitCount(s)
  {
    if s != [] {
      Characters(s[0]);
      DigitsLeft(s[1..]);
    }
  }

  /** Texts a library may read: digits, and blanks where they are skipped, with an even number
      of digits unless an odd one is allowed. */
  predicate IsReadable(s: string, skipsBlanks: bool, oddDigits: bool) {
    HexOrBlank(s, skipsBlanks) && (oddDigits || |WithoutBlanks(s)| % 2 == 0)
  }

  /** Pairs of digits are readable in any case, and they are the only readable texts where
      nothing else is allowed. */
  lemma PairsAreReadable(s: string, skipsBlanks: bool, oddDigits: bool)
    ensures FromHexDigits(s).Some? ==> IsReadable(s, skipsBlanks, oddDigits)
    ensures !skipsBlanks && !oddDigits ==> (FromHexDigits(s).Some? <==> IsReadable(s, skipsBlanks, oddDigits))
  {
    HexAccepts(s);
    if AllHex(s) {
      NoBlanksToSkip(s);
    }
  }

  lemma ReadableInCharacters(s: string, skipsBlanks: bool, oddDigits: bool)
    ensures IsReadable(s, skipsBlanks, oddDigits) <==>
              HasOnlyDigits(s, skipsBlanks) && (oddDigits || DigitCount(s) % 2 == 0)
  {
    OnlyDigits(s, skipsBlanks);
    if HexOrBlank(s, skipsBlanks) {
      DigitsLeft(s);
    }
  }

  lemma PairsInCharacters(s: string)
    ensures FromHexDigits(s).Some? <==> HasOnlyDigits(s, false) && |s| % 2 == 0
  {
    HexAccepts(s);
    OnlyDigits(s, false);
  }

  /** Pairs of digits are all of their text; with blanks skipped there may be more of it. */
  lemma HashDigits(s: string, skipsBlanks: bool)
    ensures FromHexDigits(s).Some? <==> HasOnlyDigits(s, skipsBlanks) && DigitCount(s) == |s| && |s| % 2 == 0
    ensures HexOrBlank(s, skipsBlanks) <==> HasOnlyDigits(s, skipsBlanks)
    ensures HexOrBlank(s, skipsBlanks) ==> |WithoutBlanks(s)| == DigitCount(s)
    ensures !skipsBlanks && HexOrBlank(s, skipsBlanks) ==> DigitCount(s) == |s|
  {
    HexAccepts(s);
    OnlyDigits(s, skipsBlanks);
    AllDigits(s);
    if HexOrBlank(s, skipsBlanks) {
      DigitsLeft(s);
    }
  }

  lemma {:induction false} AllDigits(s: string)
    ensures DigitCount(s) <= |s|
    ensures DigitCount(s) == |s| <==> AllHex(s)
  {
    if s != [] {
      Characters(s[0]);
      AllDigits(s[1..]);
      assert s == [s[0]] + s[1..];
      OneMoreHex(s[0], s[1..]);
    }
  }

  /** What a digit is worth, on the repository's own examples. */
  lemma HexExample()
    ensures FromHexDigits("0012345f") == Some([0, 0x12, 0x34, 0x5f])
  {
    var s, bytes: seq<u8> := "0012345f", [0, 0x12, 0x34, 0x5f];
    assert s[6..][2..] == [] && bytes[3..][1..] == [];
    HexPair(s[6..], bytes[3..]);
    assert s[4..][2..] == s[6..] && bytes[2..][1..] == bytes[3..];
    HexPair(s[4..], bytes[2..]);
    assert s[2..][2..] == s[4..] && bytes[1..][1..] == bytes[2..];
    HexPair(s[2..], bytes[1..]);
    HexPair(s, bytes);
  }

  lemma DecimalExample(max: nat)
    requires 1234 <= max
    ensures Decimal(1234) == "1234" && ParseInteger("1234", max) == Some(1234)
  {
    assert Decimal(12) == Decimal(1) + "2" == "12";
    assert Decimal(123) == Decimal(12) + "3" == "123";
    assert Decimal(1234) == Decimal(123) + "4" == "1234";
    IntegerRoundTrip(1234, max);
  }
}
