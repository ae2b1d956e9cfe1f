/** Block and extrinsic addresses of the inspect command (node/inspect/src/lib.rs). */
module Address {
  import opened Machine
  import opened Digits

  /** How the libraries behind the two hexadecimal forms read what the documentation does not
      mention: whether they skip blanks between digits, whether the bytes form may have an odd
      number of digits, and what they make of such texts. */
  datatype HexRules = HexRules(
    hashSkipsBlanks: bool,
    bytesSkipBlanks: bool,
    oddDigits: bool,
    irregularHash: string -> seq<u8>,
    irregularBytes: string -> seq<u8>)

  /** The parameters the source leaves open: the size of a hash in bytes, the largest block
      number and extrinsic index, and the libraries' reading of hexadecimal text. */
  datatype Format = Format(hashBytes: nat, numberMax: nat, indexMax: nat, hex: HexRules)

  /** The node's own sizes. */
  predicate IsNodeFormat(fmt: Format) {
    fmt.hashBytes == 32 && fmt.numberMax == U32_MAX && fmt.indexMax == U64_MAX
  }

  datatype BlockAddress = Hash(hash: seq<u8>) | Number(number: nat) | Bytes(bytes: seq<u8>)

  datatype ExtrinsicAddress = InBlock(block: BlockAddress, index: nat) | Raw(bytes: seq<u8>)

  datatype ParseError = NotABlock | IndexMissing | InvalidIndex

  datatype Result<+T> = Ok(value: T) | Err(error: ParseError)

  /** The hash form: hexadecimal without prefix, of the right length. */
  function ParseHash(fmt: Format, s: string): Option<seq<u8>> {
    if |s| == 2 * fmt.hashBytes && FromHexDigits(s).Some? then FromHexDigits(s)
    else if IsSpacedHash(fmt, s) then Some(fmt.hex.irregularHash(s))
    else None
  }

  /** A hash with blanks in it, where they are skipped. */
  predicate IsSpacedHash(fmt: Format, s: string) {
    && fmt.hex.hashSkipsBlanks && HexOrBlank(s, true)
    && |WithoutBlanks(s)| == 2 * fmt.hashBytes && |s| != 2 * fmt.hashBytes
  }

  predicate HasPrefix(s: string) {
    |s| >= 2 && s[0] == '0' && s[1] == 'x'
  }

  /** The bytes form: `0x` and hexadecimal digits. */
  function FromHex(fmt: Format, s: string): Option<seq<u8>> {
    if !HasPrefix(s) then None
    else if FromHexDigits(s[2..]).Some? then FromHexDigits(s[2..])
    else if IsReadable(s[2..], fmt.hex.bytesSkipBlanks, fmt.hex.oddDigits) then Some(fmt.hex.irregularBytes(s[2..]))
    else None
  }

  /** Hash first, then number, then bytes. */
  function ParseBlock(fmt: Format, s: string): Result<BlockAddress> {
    match ParseHash(fmt, s)
    case Some(hash) => Ok(Hash(hash))
    case None =>
      match ParseInteger(s, fmt.numberMax)
      case Some(number) => Ok(Number(number))
      case None =>
        match FromHex(fmt, s)
        case Some(bytes) => Ok(Bytes(bytes))
        case None => Err(NotABlock)
  }

  predicate IsSeparator(c: char) {
    c == '.' || c == ':' || c == ' '
  }

  function FirstSeparator(s: string): (i: nat)
    ensures i <= |s|
  {
    if s == [] || IsSeparator(s[0]) then 0 else 1 + FirstSeparator(s[1..])
  }

  /** The pieces between separators; there is always at least one. */
  function Split(s: string): (pieces: seq<string>)
    ensures pieces != []
    decreases |s|
  {
    var i := FirstSeparator(s);
    if i == |s| then [s] else [s[..i]] + Split(s[i + 1..])
  }

  /** The first two pieces as block and index; later pieces are not looked at. */
  function ParseBlockAndIndex(fmt: Format, s: string): Result<ExtrinsicAddress> {
    var pieces := Split(s);
    match ParseBlock(fmt, pieces[0])
    case Err(e) => Err(e)
    case Ok(block) =>
      if |pieces| < 2 then Err(IndexMissing)
      else
        match ParseInteger(pieces[1], fmt.indexMax)
        case Some(index) => Ok(InBlock(block, index))
        case None => Err(InvalidIndex)
  }

  /** Raw bytes first, then block and index. */
  function ParseExtrinsic(fmt: Format, s: string): Result<ExtrinsicAddress> {
    match FromHex(fmt, s)
    case Some(bytes) => Ok(Raw(bytes))
    case None => ParseBlockAndIndex(fmt, s)
  }

  // ----- the documented text of an address ---------------------------------------------

  function Render(b: BlockAddress): string {
    match b
    case Hash(hash) => ToHex(hash)
    case Number(number) => Decimal(number)
    case Bytes(bytes) => "0x" + ToHex(bytes)
  }

  predicate InFormat(fmt: Format, b: BlockAddress) {
    match b
    case Hash(hash) => |hash| == fmt.hashBytes
    case Number(number) => number <= fmt.numberMax
    case Bytes(_) => true
  }

  /** A number whose decimal text is as long as a hash; it reads back as a hash. */
  predicate LooksLikeHash(fmt: Format, b: BlockAddress) {
    b.Number? && |Decimal(b.number)| == 2 * fmt.hashBytes
  }

  // ----- the block language ---------------------------------------------------------------

  /** What a caller can check of a text to know whether it is of the bytes form. */
  predicate IsBytesText(fmt: Format, s: string) {
    HasPrefix(s) && IsReadable(s[2..], fmt.hex.bytesSkipBlanks, fmt.hex.oddDigits)
  }

  lemma BytesTextIsRead(fmt: Format, s: string)
    ensures FromHex(fmt, s).Some? <==> IsBytesText(fmt, s)
  {
    if HasPrefix(s) {
      PairsAreReadable(s[2..], fmt.hex.bytesSkipBlanks, fmt.hex.oddDigits);
    }
  }

  /** The same in characters: `0x`, and after it nothing but hexadecimal digits, and blanks
      where they are skipped, an even number of digits unless an odd one is allowed. */
  ghost predicate IsWrittenAsBytes(fmt: Format, s: string) {
    && "0x" <= s
    && HasOnlyDigits(s[2..], fmt.hex.bytesSkipBlanks)
    && (fmt.hex.oddDigits || DigitCount(s[2..]) % 2 == 0)
  }

  /** ... and the bytes it stands for, where it is not up to the library to say. */
  ghost predicate IsTextOf(fmt: Format, s: string, bytes: seq<u8>) {
    && IsWrittenAsBytes(fmt, s)
    && if HasOnlyDigits(s[2..], false) && |s[2..]| % 2 == 0 then Lower(s[2..]) == ToHex(bytes)
       else bytes == fmt.hex.irregularBytes(s[2..])
  }

  /** A text of the hash form: as many hexadecimal digits as a hash has, and nothing else but
      blanks where they are skipped. */
  ghost predicate IsHashText(fmt: Format, s: string) {
    HasOnlyDigits(s, fmt.hex.hashSkipsBlanks) && DigitCount(s) == 2 * fmt.hashBytes
  }

  ghost predicate IsTextOfHash(fmt: Format, s: string, hash: seq<u8>) {
    && IsHashText(fmt, s)
    && if |s| == 2 * fmt.hashBytes then Lower(s) == ToHex(hash) else hash == fmt.hex.irregularHash(s)
  }

  lemma PrefixInCharacters(s: string)
    ensures HasPrefix(s) <==> "0x" <= s
  {
  }

  /** Exactly which texts are accepted as bytes, character by character. */
  lemma BytesTextCharacters(fmt: Format, s: string)
    ensures FromHex(fmt, s).Some? <==> IsWrittenAsBytes(fmt, s)
    ensures IsBytesText(fmt, s) <==> IsWrittenAsBytes(fmt, s)
  {
    BytesTextIsRead(fmt, s);
    PrefixInCharacters(s);
    if HasPrefix(s) {
      ReadableInCharacters(s[2..], fmt.hex.bytesSkipBlanks, fmt.hex.oddDigits);
    }
  }

  lemma BytesLanguage(fmt: Format, s: string, bytes: seq<u8>)
    ensures FromHex(fmt, s) == Some(bytes) <==> IsTextOf(fmt, s, bytes)
  {
    BytesTextCharacters(fmt, s);
    if FromHex(fmt, s).Some? {
      HexLanguage(s[2..], bytes);
      PairsInCharacters(s[2..]);
    }
  }

  /** Exactly which texts are accepted as a hash. */
  lemma HashTextIsRead(fmt: Format, s: string)
    ensures ParseHash(fmt, s).Some? <==> IsHashText(fmt, s)
  {
    HashDigits(s, fmt.hex.hashSkipsBlanks);
    if |s| == 2 * fmt.hashBytes {
      TwiceIsEven(fmt.hashBytes);
    } else {
      assert ParseHash(fmt, s).Some? <==> IsSpacedHash(fmt, s);
    }
  }

  lemma HashLanguage(fmt: Format, s: string, hash: seq<u8>)
    ensures ParseHash(fmt, s) == Some(hash) <==> IsTextOfHash(fmt, s, hash)
  {
    HashTextIsRead(fmt, s);
    HexLanguage(s, hash);
    if |s| == 2 * fmt.hashBytes {
      assert IsHashText(fmt, s) ==> ParseHash(fmt, s) == FromHexDigits(s) by {
        PlainHash(fmt, s);
      }
    }
  }

  lemma PlainHash(fmt: Format, s: string)
    requires |s| == 2 * fmt.hashBytes
    ensures IsHashText(fmt, s) ==> FromHexDigits(s).Some?
  {
    HashDigits(s, fmt.hex.hashSkipsBlanks);
    TwiceIsEven(fmt.hashBytes);
  }

  /** A text with the prefix is neither hash nor number, whether or not it is of the bytes form. */
  lemma PrefixIsUnambiguous(fmt: Format, s: string)
    requires HasPrefix(s)
    ensures ParseHash(fmt, s).None? && ParseInteger(s, fmt.numberMax).None?
  {
    HexAccepts(s);
    AccumulateIsBoundedValue(WithoutPlus(s), fmt.numberMax);
  }

  /** The bytes form is disjoint from both other forms. */
  lemma BytesAreUnambiguous(fmt: Format, s: string)
    requires FromHex(fmt, s).Some?
    ensures ParseHash(fmt, s).None? && ParseInteger(s, fmt.numberMax).None?
  {
    PrefixIsUnambiguous(fmt, s);
  }

  lemma DecimalIsHex(s: string)
    requires AllDecimal(s)
    ensures AllHex(s) && WithoutBlanks(s) == s
  {
    assert forall i :: 0 <= i < |s| ==> IsDecimal(s[i]) && IsHex(s[i]);
    NoBlanksToSkip(s);
  }

  lemma HashOfPlainText(fmt: Format, s: string)
    requires WithoutBlanks(s) == s
    ensures ParseHash(fmt, s).Some? <==> |s| == 2 * fmt.hashBytes && AllHex(s)
  {
    HexAccepts(s);
    TwiceIsEven(fmt.hashBytes);
    assert IsSpacedHash(fmt, s) ==> |WithoutBlanks(s)| == |s|;
  }

  lemma TwiceIsEven(n: nat)
    ensures (2 * n) % 2 == 0
  {
  }

  lemma TwiceMore(n: nat, m: nat)
    ensures (2 * n + m) % 2 == m % 2
  {
  }

  lemma NumberHasNoBlanks(s: string, n: nat)
    requires Denotes(s, n)
    ensures WithoutBlanks(s) == s
  {
    var t :| (s == t || s == ['+'] + t) && t != [] && AllDecimal(t) && Value(t) == n;
    DecimalIsHex(t);
    WithoutBlanksOfConcat(['+'], t);
    assert WithoutBlanks(['+']) == ['+'];
  }

  lemma HexNumberIsPlain(s: string, n: nat)
    requires Denotes(s, n) && AllHex(s)
    ensures s != [] && AllDecimal(s) && Value(s) == n
  {
    var t :| (s == t || s == ['+'] + t) && t != [] && AllDecimal(t) && Value(t) == n;
    assert IsHex(s[0]);
  }

  /** A string is both hash and number exactly when it is all decimal digits, as long as a
      hash, and of a small enough value; it is then read as a hash. */
  lemma HashNumberAmbiguity(fmt: Format, s: string)
    ensures ParseHash(fmt, s).Some? && ParseInteger(s, fmt.numberMax).Some?
            <==> |s| == 2 * fmt.hashBytes && s != [] && AllDecimal(s) && Value(s) <= fmt.numberMax
    ensures ParseHash(fmt, s).Some? ==> ParseBlock(fmt, s) == Ok(Hash(ParseHash(fmt, s).value))
  {
    if ParseInteger(s, fmt.numberMax).Some? {
      var n := ParseInteger(s, fmt.numberMax).value;
      IntegerLanguage(s, fmt.numberMax, n);
      NumberHasNoBlanks(s, n);
      HashOfPlainText(fmt, s);
      if AllHex(s) {
        HexNumberIsPlain(s, n);
      }
    }
    if AllDecimal(s) && s != [] {
      assert Denotes(s, Value(s));
      IntegerLanguage(s, fmt.numberMax, Value(s));
      DecimalIsHex(s);
      HashOfPlainText(fmt, s);
    }
  }

  /** Exactly which strings are which block address, and that all others are no block. */
  lemma BlockLanguage(fmt: Format, s: string, b: BlockAddress)
    ensures ParseBlock(fmt, s) == Ok(b) <==>
            match b
            case Hash(hash) => IsTextOfHash(fmt, s, hash)
            case Number(n) => !IsHashText(fmt, s) && Denotes(s, n) && n <= fmt.numberMax
            case Bytes(bytes) => IsTextOf(fmt, s, bytes)
    ensures ParseBlock(fmt, s).Err? ==> ParseBlock(fmt, s) == Err(NotABlock)
  {
    match b
    case Hash(hash) => HashLanguage(fmt, s, hash);
    case Number(n) =>
      HashTextIsRead(fmt, s);
      IntegerLanguage(s, fmt.numberMax, n);
    case Bytes(bytes) =>
      BytesLanguage(fmt, s, bytes);
      if HasPrefix(s) {
        PrefixIsUnambiguous(fmt, s);
      }
  }

  /** What is read is within the format, but for the length of an irregular hash. */
  lemma BlocksAreInFormat(fmt: Format, s: string)
    requires ParseBlock(fmt, s).Ok?
    ensures InFormat(fmt, ParseBlock(fmt, s).value) || (fmt.hex.hashSkipsBlanks && ParseBlock(fmt, s).value.Hash?)
  {
    HexAccepts(s);
    match ParseBlock(fmt, s).value
    case Number(n) => IntegerLanguage(s, fmt.numberMax, n);
    case _ =>
  }

  lemma NumberLanguage(fmt: Format, s: string, n: nat)
    ensures ParseBlock(fmt, s) == Ok(Number(n)) <==>
              !(|s| == 2 * fmt.hashBytes && AllHex(s)) && Denotes(s, n) && n <= fmt.numberMax
  {
    IntegerLanguage(s, fmt.numberMax, n);
    if Denotes(s, n) {
      NumberHasNoBlanks(s, n);
      HashOfPlainText(fmt, s);
    }
  }

  lemma HexTextHasNoBlanks(s: string)
    requires AllHex(s)
    ensures WithoutBlanks(s) == s && HexOrBlank(s, false) && HexOrBlank(s, true)
  {
    assert forall i :: 0 <= i < |s| ==> IsHex(s[i]) && !IsBlank(s[i]);
    NoBlanksToSkip(s);
  }

  lemma HashRoundTrip(fmt: Format, hash: seq<u8>)
    requires |hash| == fmt.hashBytes
    ensures ParseBlock(fmt, ToHex(hash)) == Ok(Hash(hash))
  {
    HexText(hash);
  }

  lemma BytesRoundTrip(fmt: Format, bytes: seq<u8>)
    ensures FromHex(fmt, "0x" + ToHex(bytes)) == Some(bytes)
  {
    HexText(bytes);
    assert ("0x" + ToHex(bytes))[2..] == ToHex(bytes);
  }

  /** Parsing inverts the documented text of every address, except a number that looks like
      a hash. */
  lemma BlockRoundTrip(fmt: Format, b: BlockAddress)
    requires InFormat(fmt, b)
    ensures ParseBlock(fmt, Render(b)) == Ok(b) <==> !LooksLikeHash(fmt, b)
  {
    match b
    case Hash(hash) => HashRoundTrip(fmt, hash);
    case Number(n) =>
      DecimalDenotes(n);
      assert Denotes(Decimal(n), n);
      DecimalIsHex(Decimal(n));
      NumberLanguage(fmt, Decimal(n), n);
    case Bytes(bytes) =>
      BytesRoundTrip(fmt, bytes);
      PrefixIsUnambiguous(fmt, "0x" + ToHex(bytes));
  }

  /** Every address of a format reads back exactly when the format has no number with as many
      digits as a hash has, the smallest of which is
      `10^(2h - 1)` for hashes of `h` bytes. */
  lemma BlockRoundTripLaw(fmt: Format)
    ensures (forall b: BlockAddress :: InFormat(fmt, b) ==> ParseBlock(fmt, Render(b)) == Ok(b))
            <==> fmt.hashBytes == 0 || fmt.numberMax < Pow10(2 * fmt.hashBytes - 1)
  {
    forall b: BlockAddress | InFormat(fmt, b)
      ensures ParseBlock(fmt, Render(b)) == Ok(b) <==> !LooksLikeHash(fmt, b)
    {
      BlockRoundTrip(fmt, b);
    }
    if fmt.hashBytes == 0 {
      forall n: nat ensures Decimal(n) != [] {
        DecimalDenotes(n);
      }
    } else {
      var k := 2 * fmt.hashBytes;
      forall n: nat ensures |Decimal(n)| == k <==> Pow10(k - 1) <= n < Pow10(k) {
        DecimalLength(n, k);
        DecimalLength(n, k - 1);
      }
      assert Pow10(k - 1) < Pow10(k) by {
        Pow10Positive(k - 1);
      }
      if Pow10(k - 1) <= fmt.numberMax {
        var b := Number(Pow10(k - 1));
        assert InFormat(fmt, b) && LooksLikeHash(fmt, b);
      }
    }
  }

  lemma {:induction false} Pow10Positive(k: nat)
    ensures 0 < Pow10(k)
  {
    if 0 < k {
      Pow10Positive(k - 1);
    }
  }

  /** A failing input: with 16-byte hashes and 128-bit numbers, the text of block `10^31` reads
      back as a hash. */
  lemma LongNumberReadsAsHash(fmt: Format)
    requires fmt.hashBytes == 16 && fmt.numberMax == U128_MAX
    ensures Pow10(31) == 10_000_000_000_000_000_000_000_000_000_000
    ensures InFormat(fmt, Number(Pow10(31))) && |Decimal(Pow10(31))| == 32
    ensures var r := ParseBlock(fmt, Decimal(Pow10(31))); r.Ok? && r.value.Hash?
  {
    var n := Pow10(31);
    assert Pow10(10) == 10_000_000_000 && Pow10(11) == 100_000_000_000;
    Pow10OfSum(10, 10);
    Pow10OfSum(20, 11);
    assert Pow10(32) == 10 * n;
    DecimalLength(n, 31);
    DecimalLength(n, 32);
    DecimalDenotes(n);
    DecimalIsHex(Decimal(n));
    HexAccepts(Decimal(n));
  }

  /** No address of the node's own sizes looks like a hash, so there the law is unconditional. */
  lemma NodeBlockRoundTrip(fmt: Format, b: BlockAddress)
    requires IsNodeFormat(fmt) && InFormat(fmt, b)
    ensures ParseBlock(fmt, Render(b)) == Ok(b) && !LooksLikeHash(fmt, b)
  {
    BlockRoundTrip(fmt, b);
    if b.Number? {
      assert Pow10(10) == 10_000_000_000;
      DecimalLength(b.number, 10);
    }
  }

  // ----- splitting ----------------------------------------------------------------------------

  /** The three characters a text is split at. */
  const SEPARATORS := ".: "

  lemma SeparatorCharacters(c: char)
    ensures IsSeparator(c) <==> c in SEPARATORS
  {
  }

  ghost predicate NoSeparator(s: string) {
    forall i :: 0 <= i < |s| ==> s[i] !in SEPARATORS
  }

  lemma {:induction false} FirstSeparatorIsFirst(s: string)
    ensures NoSeparator(s[..FirstSeparator(s)])
    ensures FirstSeparator(s) < |s| ==> s[FirstSeparator(s)] in SEPARATORS
  {
    if s != [] {
      SeparatorCharacters(s[0]);
    }
    if s != [] && s[0] !in SEPARATORS {
      FirstSeparatorIsFirst(s[1..]);
      var i := FirstSeparator(s[1..]);
      assert s[..1 + i] == [s[0]] + s[1..][..i];
    }
  }

  /** The piece before the first separator, and where that separator is. */
  lemma {:induction false} FirstSeparatorAt(p: string, rest: string)
    requires NoSeparator(p)
    requires rest == [] || rest[0] in SEPARATORS
    ensures FirstSeparator(p + rest) == |p|
  {
    if p != [] {
      SeparatorCharacters(p[0]);
      assert (p + rest)[1..] == p[1..] + rest;
      FirstSeparatorAt(p[1..], rest);
    } else {
      assert p + rest == rest;
      if rest != [] {
        SeparatorCharacters(rest[0]);
      }
    }
  }

  lemma SplitFirst(p: string, rest: string)
    requires NoSeparator(p)
    requires rest == [] || rest[0] in SEPARATORS
    ensures Split(p + rest) == if rest == [] then [p] else [p] + Split(rest[1..])
  {
    FirstSeparatorAt(p, rest);
    assert (p + rest)[..|p|] == p;
    assert rest == [] ==> p + rest == p;
    assert rest != [] ==> (p + rest)[|p| + 1..] == rest[1..];
  }

  /** Every string is its first piece followed by nothing or a separator. */
  lemma SplitOff(s: string) returns (p: string, rest: string)
    ensures s == p + rest && NoSeparator(p)
    ensures rest == [] || rest[0] in SEPARATORS
  {
    FirstSeparatorIsFirst(s);
    p, rest := s[..FirstSeparator(s)], s[FirstSeparator(s)..];
  }

  // ----- the extrinsic language --------------------------------------------------------------------

  /** `s` is `p sep q`, or that followed by another separator and anything. */
  ghost predicate StartsWithPieces(s: string, p: string, q: string, tail: string) {
    && NoSeparator(p) && NoSeparator(q)
    && (tail == [] || tail[0] in SEPARATORS)
    && |p| < |s| && s[..|p|] == p && s[|p|] in SEPARATORS && s[|p| + 1..] == q + tail
  }

  /** `s` is `block sep index`, or that followed by another separator and anything. */
  ghost predicate IsBlockAndIndex(fmt: Format, s: string, b: BlockAddress, index: nat, p: string, q: string, tail: string) {
    && StartsWithPieces(s, p, q, tail)
    && ParseBlock(fmt, p) == Ok(b)
    && ParseInteger(q, fmt.indexMax) == Some(index)
  }

  lemma SplitTwoPieces(s: string, p: string, q: string, tail: string)
    requires StartsWithPieces(s, p, q, tail)
    ensures !NoSeparator(s)
    ensures |Split(s)| >= 2 && Split(s)[0] == p && Split(s)[1] == q
  {
    assert s == p + s[|p|..] && s[|p|..][1..] == q + tail;
    SplitFirst(p, s[|p|..]);
    SplitFirst(q, tail);
  }

  /** Every string with a separator starts with two pieces. */
  lemma TwoPieces(s: string) returns (p: string, q: string, tail: string)
    requires !NoSeparator(s)
    ensures StartsWithPieces(s, p, q, tail)
  {
    var rest;
    p, rest := SplitOff(s);
    assert rest == [] ==> p == s;
    q, tail := SplitOff(rest[1..]);
    assert s[|p| + 1..] == rest[1..];
  }

  // ----- the bytes form against the separators --------------------------------------------------

  /** The only separator the bytes form can contain is a space, and only if it skips blanks. */
  lemma BytesTextSeparators(fmt: Format, s: string, i: nat)
    requires FromHex(fmt, s).Some? && i < |s| && s[i] in SEPARATORS
    ensures s[i] == ' ' && fmt.hex.bytesSkipBlanks
  {
    BytesTextIsRead(fmt, s);
    SeparatorCharacters(s[i]);
    assert s[2..][i - 2] == s[i];
  }

  /** When `0x` starts a text, it starts its first piece, which is then of the bytes form or
      no block at all. */
  lemma FirstPieceOfBytes(fmt: Format, s: string)
    requires HasPrefix(s)
    ensures ParseBlock(fmt, Split(s)[0])
         == match FromHex(fmt, Split(s)[0]) case Some(bytes) => Ok(Bytes(bytes)) case None => Err(NotABlock)
  {
    var p, rest := SplitOff(s);
    SplitFirst(p, rest);
    assert |p| < |s| ==> s[|p|] in SEPARATORS;
    PrefixIsUnambiguous(fmt, p);
  }

  /** The same choice made in the other order. */
  function ParseExtrinsicBlockFirst(fmt: Format, s: string): Result<ExtrinsicAddress> {
    match ParseBlockAndIndex(fmt, s)
    case Ok(address) => Ok(address)
    case Err(e) =>
      match FromHex(fmt, s)
      case Some(bytes) => Ok(Raw(bytes))
      case None => Err(e)
  }

  /** Exactly for which strings the order of the branches matters: those of the bytes form
      whose first two pieces are of the bytes form and an index. */
  lemma OrderOfBranchesMatters(fmt: Format, s: string)
    ensures ParseExtrinsicBlockFirst(fmt, s) != ParseExtrinsic(fmt, s) <==>
              && IsBytesText(fmt, s) && |Split(s)| >= 2
              && IsBytesText(fmt, Split(s)[0]) && ParseInteger(Split(s)[1], fmt.indexMax).Some?
    ensures ParseExtrinsicBlockFirst(fmt, s) != ParseExtrinsic(fmt, s) ==> fmt.hex.bytesSkipBlanks && ' ' in s
  {
    BytesTextIsRead(fmt, s);
    BytesTextIsRead(fmt, Split(s)[0]);
    if FromHex(fmt, s).Some? {
      FirstPieceOfBytes(fmt, s);
      var i := FirstSeparator(s);
      if i < |s| {
        FirstSeparatorIsFirst(s);
        BytesTextSeparators(fmt, s, i);
        assert s[i] in s;
      }
    }
  }

  /** The failing input: a bytes block, a space and an index, if blanks are skipped. A colon in
      its place is read as documented. */
  lemma SpaceAfterBytesReadsAsRaw(fmt: Format, s: string, t: string)
    requires s == "0x00 00" && t == "0x00:00"
    ensures ParseBlockAndIndex(fmt, s) == Ok(InBlock(Bytes([0]), 0))
    ensures fmt.hex.bytesSkipBlanks ==> ParseExtrinsic(fmt, s).Ok? && ParseExtrinsic(fmt, s).value.Raw?
    ensures !fmt.hex.bytesSkipBlanks ==> ParseExtrinsic(fmt, s) == Ok(InBlock(Bytes([0]), 0))
    ensures ParseExtrinsic(fmt, t) == Ok(InBlock(Bytes([0]), 0))
  {
    ZeroBlockAndIndex(fmt, s);
    ZeroBlockAndIndex(fmt, t);
    ColonIsNotBytes(fmt, t, 4);
    SpacedZerosAreBytes(fmt, s);
  }

  lemma SpacedZerosAreBytes(fmt: Format, s: string)
    requires s == "0x00 00"
    ensures FromHex(fmt, s).Some? <==> fmt.hex.bytesSkipBlanks
  {
    BytesTextIsRead(fmt, s);
    FourZeroDigits(s);
    assert s[2..][2] == ' ';
  }

  lemma ColonIsNotBytes(fmt: Format, t: string, i: nat)
    requires i < |t| && t[i] == ':'
    ensures FromHex(fmt, t).None?
  {
    if FromHex(fmt, t).Some? {
      BytesTextSeparators(fmt, t, i);
    }
  }

  lemma FourZeroDigits(s: string)
    requires s == "0x00 00"
    ensures HexOrBlank(s[2..], true) && |WithoutBlanks(s[2..])| == 4
  {
    var zeros := s[5..];
    NoBlanksToSkip(zeros);
    assert s[2..] == zeros + ([' '] + zeros);
    WithoutBlanksOfConcat(zeros, [' '] + zeros);
    WithoutBlanksOfConcat([' '], zeros);
  }

  lemma ZeroByte()
    ensures FromHexDigits("00") == Some([0])
  {
    var one: seq<u8> := [0];
    assert "00"[2..] == [] && one[1..] == [];
    HexPair("00", one);
  }

  lemma ZeroBlockAndIndex(fmt: Format, s: string)
    requires s == "0x00 00" || s == "0x00:00"
    ensures ParseBlockAndIndex(fmt, s) == Ok(InBlock(Bytes([0]), 0))
  {
    assert s[..4] == "0x00" && s[5..] == "00" + "";
    assert StartsWithPieces(s, "0x00", "00", "");
    SplitTwoPieces(s, "0x00", "00", "");
    ZeroBlock(fmt);
    ZeroIndex(fmt.indexMax, "00");
  }

  lemma ZeroIndex(max: nat, s: string)
    requires s == "00"
    ensures ParseInteger(s, max) == Some(0)
  {
    AccumulateIsBoundedValue(s, max);
    assert s[..1][..0] == [];
    assert Value(s[..1]) == Value(s[..1][..0]) * 10;
  }

  lemma ZeroBlock(fmt: Format)
    ensures ParseBlock(fmt, "0x00") == Ok(Bytes([0]))
  {
    ZeroByte();
    assert "0x00"[2..] == "00";
    PrefixIsUnambiguous(fmt, "0x00");
  }

  lemma SpacedTexts(fmt: Format, s: string, t: string)
    requires fmt.hex.bytesSkipBlanks && s == "0x00 00" && t == "0x00:00"
    ensures SameUpToSeparators(s, t) && !NoSeparator(s) && FromHex(fmt, s).Some?
    ensures ParseBlockAndIndex(fmt, s).Ok? && ParseBlockAndIndex(fmt, s) != ParseExtrinsic(fmt, s)
    ensures ParseExtrinsic(fmt, t) != ParseExtrinsic(fmt, s)
  {
    SpaceAfterBytesReadsAsRaw(fmt, s, t);
    assert s[4] in SEPARATORS;
  }

  /** The same two texts, without spelling them out. */
  lemma SkippedSpace(fmt: Format) returns (s: string, t: string)
    requires fmt.hex.bytesSkipBlanks
    ensures SameUpToSeparators(s, t) && !NoSeparator(s) && FromHex(fmt, s).Some?
    ensures ParseBlockAndIndex(fmt, s).Ok? && ParseBlockAndIndex(fmt, s) != ParseExtrinsic(fmt, s)
    ensures ParseExtrinsic(fmt, t) != ParseExtrinsic(fmt, s)
  {
    s, t := "0x00 00", "0x00:00";
    SpacedTexts(fmt, s, t);
  }

  /** The two branches accept disjoint strings exactly when the bytes form rejects blanks. */
  lemma BranchesAreDisjoint(fmt: Format)
    ensures (forall s: string :: FromHex(fmt, s).Some? ==> ParseBlockAndIndex(fmt, s).Err?) <==> !fmt.hex.bytesSkipBlanks
  {
    if fmt.hex.bytesSkipBlanks {
      var s, t := SkippedSpace(fmt);
      assert FromHex(fmt, s).Some? && !ParseBlockAndIndex(fmt, s).Err?;
    } else {
      forall s: string | FromHex(fmt, s).Some? ensures ParseBlockAndIndex(fmt, s).Err? {
        OrderOfBranchesMatters(fmt, s);
      }
    }
  }

  /** The order of the branches matters for no string under exactly the same condition. */
  lemma OrderOfBranchesIsImmaterial(fmt: Format)
    ensures (forall s: string :: ParseExtrinsicBlockFirst(fmt, s) == ParseExtrinsic(fmt, s)) <==> !fmt.hex.bytesSkipBlanks
  {
    if fmt.hex.bytesSkipBlanks {
      var s, t := SkippedSpace(fmt);
      assert ParseExtrinsicBlockFirst(fmt, s) != ParseExtrinsic(fmt, s);
    } else {
      forall s: string ensures ParseExtrinsicBlockFirst(fmt, s) == ParseExtrinsic(fmt, s) {
        OrderOfBranchesMatters(fmt, s);
      }
    }
  }

  // ----- the extrinsic language --------------------------------------------------------------------

  /** Exactly which strings are which extrinsic address. */
  lemma ExtrinsicLanguage(fmt: Format, s: string)
    ensures forall bytes :: ParseExtrinsic(fmt, s) == Ok(Raw(bytes)) <==> IsTextOf(fmt, s, bytes)
    ensures forall b, index :: ParseExtrinsic(fmt, s) == Ok(InBlock(b, index)) <==>
              !IsBytesText(fmt, s) && exists p, q, tail :: IsBlockAndIndex(fmt, s, b, index, p, q, tail)
  {
    forall bytes
      ensures ParseExtrinsic(fmt, s) == Ok(Raw(bytes)) <==> IsTextOf(fmt, s, bytes)
    {
      BytesLanguage(fmt, s, bytes);
    }
    BytesTextIsRead(fmt, s);
    forall b, index
      ensures ParseBlockAndIndex(fmt, s) == Ok(InBlock(b, index)) <==>
                exists p, q, tail :: IsBlockAndIndex(fmt, s, b, index, p, q, tail)
    {
      BlockAndIndexLanguage(fmt, s, b, index);
    }
  }

  lemma BlockAndIndexLanguage(fmt: Format, s: string, b: BlockAddress, index: nat)
    ensures ParseBlockAndIndex(fmt, s) == Ok(InBlock(b, index)) <==>
              exists p, q, tail :: IsBlockAndIndex(fmt, s, b, index, p, q, tail)
  {
    if NoSeparator(s) {
      assert s + [] == s;
      SplitFirst(s, []);
    } else {
      var p, q, tail := TwoPieces(s);
      SplitTwoPieces(s, p, q, tail);
      assert ParseBlockAndIndex(fmt, s) == Ok(InBlock(b, index)) <==> IsBlockAndIndex(fmt, s, b, index, p, q, tail);
    }
    forall p, q, tail | IsBlockAndIndex(fmt, s, b, index, p, q, tail)
      ensures !NoSeparator(s) && Split(s)[0] == p && |Split(s)| >= 2 && Split(s)[1] == q
    {
      SplitTwoPieces(s, p, q, tail);
    }
  }

  /** Exactly which result every string has that is not of the bytes form. Without a separator
      the index is missing, if the whole is a block. With one, the first piece must be a block
      and the second an index; the block is looked at first. */
  lemma ExtrinsicResults(fmt: Format, s: string, p: string, q: string, tail: string)
    requires !IsBytesText(fmt, s)
    ensures NoSeparator(s) ==>
              ParseExtrinsic(fmt, s) == Err(if ParseBlock(fmt, s).Ok? then IndexMissing else NotABlock)
    ensures StartsWithPieces(s, p, q, tail) ==>
              ParseExtrinsic(fmt, s)
              == if ParseBlock(fmt, p).Err? then Err(NotABlock)
                 else if ParseInteger(q, fmt.indexMax).None? then Err(InvalidIndex)
                 else Ok(InBlock(ParseBlock(fmt, p).value, ParseInteger(q, fmt.indexMax).value))
  {
    BytesTextIsRead(fmt, s);
    if NoSeparator(s) {
      assert s + [] == s;
      SplitFirst(s, []);
    }
    if StartsWithPieces(s, p, q, tail) {
      SplitTwoPieces(s, p, q, tail);
    }
  }

  /** One of the two cases above always applies. */
  lemma EveryTextHasPieces(s: string)
    ensures NoSeparator(s) <==> !exists p, q, tail :: StartsWithPieces(s, p, q, tail)
  {
    if !NoSeparator(s) {
      var p, q, tail := TwoPieces(s);
    }
    forall p, q, tail | StartsWithPieces(s, p, q, tail) ensures !NoSeparator(s) {
      SplitTwoPieces(s, p, q, tail);
    }
  }

  // ----- round trips and insensitivity ------------------------------------------------------------------

  lemma RenderHasNoSeparator(b: BlockAddress)
    ensures NoSeparator(Render(b))
  {
    match b
    case Hash(hash) => HexText(hash);
    case Number(n) => DecimalDenotes(n);
    case Bytes(bytes) => HexText(bytes);
  }

  /** A bytes block and a space, after which there are only digits and blanks, to the right
      number: the whole text is then of the bytes form. */
  predicate ReadsAsRaw(fmt: Format, b: BlockAddress, sep: char, index: nat, tail: string) {
    && fmt.hex.bytesSkipBlanks && b.Bytes? && sep == ' ' && HexOrBlank(tail, true)
    && (fmt.hex.oddDigits || (|Decimal(index)| + |WithoutBlanks(tail)|) % 2 == 0)
  }

  lemma HexOrBlankOfConcat(s: string, t: string, skipsBlanks: bool)
    ensures HexOrBlank(s + t, skipsBlanks) <==> HexOrBlank(s, skipsBlanks) && HexOrBlank(t, skipsBlanks)
  {
    assert forall i :: 0 <= i < |t| ==> (s + t)[|s| + i] == t[i];
    assert forall i :: 0 <= i < |s| ==> (s + t)[i] == s[i];
  }

  lemma BytesThenIndex(h: string, sep: char, d: string, tail: string, skips: bool)
    requires AllHex(h) && AllHex(d) && sep in SEPARATORS
    ensures HexOrBlank(h + ([sep] + (d + tail)), skips) <==> skips && sep == ' ' && HexOrBlank(tail, true)
    ensures sep == ' ' ==> |WithoutBlanks(h + ([sep] + (d + tail)))| == |h| + |d| + |WithoutBlanks(tail)|
  {
    HexTextHasNoBlanks(h);
    HexTextHasNoBlanks(d);
    HexOrBlankOfConcat(h, [sep] + (d + tail), skips);
    HexOrBlankOfConcat([sep], d + tail, skips);
    HexOrBlankOfConcat(d, tail, skips);
    assert HexOrBlank([sep], skips) <==> skips && sep == ' ' by {
      assert [sep][0] == sep;
    }
    WithoutBlanksOfConcat(h, [sep] + (d + tail));
    WithoutBlanksOfConcat([sep], d + tail);
    WithoutBlanksOfConcat(d, tail);
  }

  lemma AfterThePrefix(h: string, rest: string, s: string)
    requires s == "0x" + h + rest
    ensures HasPrefix(s) && s[2..] == h + rest
  {
  }

  lemma ReadableWithIndex(h: string, sep: char, d: string, tail: string, s: string, skips: bool, odd: bool, n: nat)
    requires AllHex(h) && |h| == 2 * n && AllHex(d) && sep in SEPARATORS && s == h + ([sep] + (d + tail))
    ensures IsReadable(s, skips, odd) <==>
              skips && sep == ' ' && HexOrBlank(tail, true) && (odd || (|d| + |WithoutBlanks(tail)|) % 2 == 0)
  {
    BytesThenIndex(h, sep, d, tail, skips);
    TwiceMore(n, |d| + |WithoutBlanks(tail)|);
  }

  lemma WhenABytesTextGoesOn(fmt: Format, s: string, bytes: seq<u8>, sep: char, d: string, tail: string)
    requires s == "0x" + ToHex(bytes) + ([sep] + (d + tail))
    requires AllHex(d) && sep in SEPARATORS
    ensures IsBytesText(fmt, s) <==>
              && fmt.hex.bytesSkipBlanks && sep == ' ' && HexOrBlank(tail, true)
              && (fmt.hex.oddDigits || (|d| + |WithoutBlanks(tail)|) % 2 == 0)
  {
    AfterThePrefix(ToHex(bytes), [sep] + (d + tail), s);
    HexText(bytes);
    ReadableWithIndex(ToHex(bytes), sep, d, tail, s[2..], fmt.hex.bytesSkipBlanks, fmt.hex.oddDigits, |bytes|);
  }

  lemma RenderIsHex(b: BlockAddress)
    requires !b.Bytes?
    ensures AllHex(Render(b))
  {
    match b
    case Hash(hash) => HexText(hash);
    case Number(n) =>
      DecimalDenotes(n);
      DecimalIsHex(Decimal(n));
  }

  lemma WhenABytesBlockHasAnIndex(fmt: Format, bytes: seq<u8>, sep: char, index: nat, tail: string, s: string)
    requires sep in SEPARATORS && s == "0x" + ToHex(bytes) + ([sep] + (Decimal(index) + tail))
    ensures IsBytesText(fmt, s) <==> ReadsAsRaw(fmt, Bytes(bytes), sep, index, tail)
  {
    var d := Decimal(index);
    assert AllHex(d) by {
      DecimalDenotes(index);
      DecimalIsHex(d);
    }
    WhenABytesTextGoesOn(fmt, s, bytes, sep, d, tail);
  }

  lemma OtherBlocksAreNotBytes(fmt: Format, b: BlockAddress, sep: char, rest: string, s: string)
    requires !b.Bytes? && sep in SEPARATORS && s == Render(b) + ([sep] + rest)
    ensures !IsBytesText(fmt, s)
  {
    RenderIsHex(b);
    NoPrefixBeforeSeparator(Render(b), sep, rest, s);
  }

  lemma WhenTheWholeTextIsBytes(fmt: Format, b: BlockAddress, sep: char, index: nat, tail: string, s: string)
    requires sep in SEPARATORS && s == Render(b) + ([sep] + (Decimal(index) + tail))
    ensures IsBytesText(fmt, s) <==> ReadsAsRaw(fmt, b, sep, index, tail)
  {
    if b.Bytes? {
      WhenABytesBlockHasAnIndex(fmt, b.bytes, sep, index, tail, s);
    } else {
      OtherBlocksAreNotBytes(fmt, b, sep, Decimal(index) + tail, s);
    }
  }

  lemma NoPrefixBeforeSeparator(p: string, sep: char, rest: string, s: string)
    requires AllHex(p) && sep in SEPARATORS && s == p + ([sep] + rest)
    ensures !HasPrefix(s)
  {
    assert s[|p|] == sep;
    if |p| >= 2 {
      assert s[1] == p[1] && IsHex(p[1]);
    }
  }

  lemma Regroup(p: string, sep: string, q: string, tail: string)
    ensures p + sep + q + tail == p + (sep + (q + tail))
  {
  }

  lemma RenderedPieces(b: BlockAddress, index: nat, sep: char, tail: string, s: string)
    requires sep in SEPARATORS && s == Render(b) + ([sep] + (Decimal(index) + tail))
    requires tail == [] || tail[0] in SEPARATORS
    ensures StartsWithPieces(s, Render(b), Decimal(index), tail)
  {
    RenderHasNoSeparator(b);
    RenderHasNoSeparator(Number(index));
    assert s[|Render(b)|] == sep;
  }

  lemma BlockAndIndexRoundTrip(fmt: Format, b: BlockAddress, index: nat, sep: char, tail: string, s: string)
    requires InFormat(fmt, b) && index <= fmt.indexMax
    requires sep in SEPARATORS && s == Render(b) + ([sep] + (Decimal(index) + tail))
    requires tail == [] || tail[0] in SEPARATORS
    ensures ParseBlockAndIndex(fmt, s) == Ok(InBlock(b, index)) <==> !LooksLikeHash(fmt, b)
  {
    RenderedPieces(b, index, sep, tail, s);
    SplitTwoPieces(s, Render(b), Decimal(index), tail);
    BlockRoundTrip(fmt, b);
    IntegerRoundTrip(index, fmt.indexMax);
  }

  /** Parsing inverts `block sep index` for each of the three separators, whatever follows
      after another one, with two exceptions: a number that looks like a hash, and a bytes
      block whose whole text is of the bytes form. */
  lemma ExtrinsicRoundTrip(fmt: Format, b: BlockAddress, index: nat, sep: char, tail: string)
    requires InFormat(fmt, b) && index <= fmt.indexMax && (sep == '.' || sep == ':' || sep == ' ')
    requires tail == [] || tail[0] in SEPARATORS
    ensures ParseExtrinsic(fmt, Render(b) + [sep] + Decimal(index) + tail) == Ok(InBlock(b, index))
            <==> !LooksLikeHash(fmt, b) && !ReadsAsRaw(fmt, b, sep, index, tail)
  {
    var s := Render(b) + [sep] + Decimal(index) + tail;
    Regroup(Render(b), [sep], Decimal(index), tail);
    BlockAndIndexRoundTrip(fmt, b, index, sep, tail, s);
    WhenTheWholeTextIsBytes(fmt, b, sep, index, tail, s);
    BytesTextIsRead(fmt, s);
  }

  lemma RawRoundTrip(fmt: Format, bytes: seq<u8>)
    ensures ParseExtrinsic(fmt, "0x" + ToHex(bytes)) == Ok(Raw(bytes))
  {
    BytesRoundTrip(fmt, bytes);
  }

  /** With the node's sizes every address reads back, for each separator, unless it is a bytes
      block before a space and blanks are skipped; a block given by hash or number, which is
      what the documentation describes, always does. */
  lemma NodeExtrinsicRoundTrip(fmt: Format, b: BlockAddress, index: u64, sep: char)
    requires IsNodeFormat(fmt) && InFormat(fmt, b) && (sep == '.' || sep == ':' || sep == ' ')
    ensures ParseExtrinsic(fmt, Render(b) + [sep] + Decimal(index)) == Ok(InBlock(b, index))
            <==> !(fmt.hex.bytesSkipBlanks && b.Bytes? && sep == ' ' && (fmt.hex.oddDigits || |Decimal(index)| % 2 == 0))
  {
    var s := Render(b) + [sep] + Decimal(index);
    assert s + [] == s;
    NodeBlockRoundTrip(fmt, b);
    ExtrinsicRoundTrip(fmt, b, index, sep, []);
  }

  lemma PiecesWithTail(s: string, p: string, q: string, rest: string, tail: string)
    requires StartsWithPieces(s, p, q, rest) && (tail == [] || tail[0] in SEPARATORS)
    ensures StartsWithPieces(s + tail, p, q, rest + tail)
  {
    var t, k := s + tail, |p| + 1;
    assert t[..|p|] == s[..|p|] && t[|p|] == s[|p|];
    assert t[k..] == s[k..] + tail;
    assert (q + rest) + tail == q + (rest + tail);
  }

  lemma FirstTwoPieces(s: string, tail: string)
    requires !NoSeparator(s) && (tail == [] || tail[0] in SEPARATORS)
    ensures |Split(s)| >= 2 && |Split(s + tail)| >= 2
    ensures Split(s + tail)[0] == Split(s)[0] && Split(s + tail)[1] == Split(s)[1]
  {
    var p, q, rest := TwoPieces(s);
    SplitTwoPieces(s, p, q, rest);
    PiecesWithTail(s, p, q, rest, tail);
    SplitTwoPieces(s + tail, p, q, rest + tail);
  }

  /** Once there is a separator, appending another one and anything after it changes neither
      address nor error if neither text is of the bytes form, and does change the result if one
      of them is; if both are, it is up to the library what bytes it makes of them. */
  lemma TailIsIgnored(fmt: Format, s: string, tail: string)
    requires !NoSeparator(s) && tail != [] && tail[0] in SEPARATORS
    ensures ParseExtrinsic(fmt, s + tail) == ParseExtrinsic(fmt, s) <==>
              && (IsBytesText(fmt, s + tail) <==> IsBytesText(fmt, s))
              && (IsBytesText(fmt, s) ==> fmt.hex.irregularBytes((s + tail)[2..]) == fmt.hex.irregularBytes(s[2..]))
  {
    FirstTwoPieces(s, tail);
    BytesTextIsRead(fmt, s);
    BytesTextIsRead(fmt, s + tail);
    var i :| 0 <= i < |s| && s[i] in SEPARATORS;
    assert (s + tail)[i] == s[i];
    BytesWithSeparator(fmt, s, i);
    BytesWithSeparator(fmt, s + tail, i);
  }

  /** Without the prefix, after a dot or a colon, or where blanks are rejected, a text with a
      separator is not of the bytes form, and no tail makes it so: there the tail is ignored. */
  lemma TailIsSafelyIgnored(fmt: Format, s: string, tail: string)
    requires !NoSeparator(s) && tail != [] && tail[0] in SEPARATORS
    requires !HasPrefix(s) || '.' in s || ':' in s || !fmt.hex.bytesSkipBlanks
    ensures !IsBytesText(fmt, s) && ParseExtrinsic(fmt, s + tail) == ParseExtrinsic(fmt, s)
  {
    var i :| 0 <= i < |s| && s[i] in SEPARATORS && (HasPrefix(s) && fmt.hex.bytesSkipBlanks ==> s[i] != ' ');
    assert (s + tail)[i] == s[i];
    assert |s| >= 2 ==> (s + tail)[0] == s[0] && (s + tail)[1] == s[1];
    NotBytes(fmt, s, i);
    NotBytes(fmt, s + tail, i);
    BytesTextIsRead(fmt, s);
    FirstTwoPieces(s, tail);
  }

  /** A text of the bytes form with a separator in it is irregular. */
  lemma BytesWithSeparator(fmt: Format, s: string, i: nat)
    requires i < |s| && s[i] in SEPARATORS
    ensures FromHex(fmt, s).Some? ==> FromHex(fmt, s) == Some(fmt.hex.irregularBytes(s[2..]))
  {
    if FromHex(fmt, s).Some? {
      HexAccepts(s[2..]);
      assert s[2..][i - 2] == s[i];
    }
  }

  lemma NotBytes(fmt: Format, s: string, i: nat)
    requires i < |s| && s[i] in SEPARATORS
    requires HasPrefix(s) && fmt.hex.bytesSkipBlanks ==> s[i] != ' '
    ensures FromHex(fmt, s).None?
  {
    if FromHex(fmt, s).Some? {
      BytesTextSeparators(fmt, s, i);
    }
  }

  /** `t` is `s` with some separators changed into others. */
  ghost predicate SameUpToSeparators(s: string, t: string) {
    && |s| == |t|
    && forall i :: 0 <= i < |s| ==> s[i] == t[i] || (s[i] in SEPARATORS && t[i] in SEPARATORS)
  }

  lemma SameUpToAPoint(s: string, t: string, k: nat)
    requires SameUpToSeparators(s, t) && k <= |s|
    ensures SameUpToSeparators(s[k..], t[k..])
    ensures NoSeparator(s[..k]) ==> s[..k] == t[..k]
  {
    assert forall i :: 0 <= i < k ==> s[..k][i] == s[i] && t[..k][i] == t[i];
  }

  lemma {:induction false} SplitIgnoresWhichSeparator(s: string, t: string)
    requires SameUpToSeparators(s, t)
    ensures Split(s) == Split(t)
    decreases |s|
  {
    var p, rest := SplitOff(s);
    assert s[..|p|] == p && s[|p|..] == rest;
    SameUpToAPoint(s, t, |p|);
    var rest' := t[|p|..];
    assert t == p + rest';
    SplitFirst(p, rest);
    SplitFirst(p, rest');
    if rest != [] {
      SameUpToAPoint(rest, rest', 1);
      SplitIgnoresWhichSeparator(rest[1..], rest'[1..]);
    }
  }

  /** Which separators are used matters for no string, well-formed or not, unless one of the two
      texts is of the bytes form. */
  lemma SeparatorsAreInterchangeable(fmt: Format, s: string, t: string)
    requires SameUpToSeparators(s, t)
    ensures ParseExtrinsic(fmt, s) == ParseExtrinsic(fmt, t)
            <==> s == t || (!IsBytesText(fmt, s) && !IsBytesText(fmt, t))
    ensures !HasPrefix(s) || !fmt.hex.bytesSkipBlanks ==> ParseExtrinsic(fmt, s) == ParseExtrinsic(fmt, t)
  {
    SplitIgnoresWhichSeparator(s, t);
    BytesTextIsRead(fmt, s);
    BytesTextIsRead(fmt, t);
    if FromHex(fmt, s).Some? && FromHex(fmt, t).Some? {
      OnlySpaces(fmt, s, t);
    }
    if !fmt.hex.bytesSkipBlanks {
      if FromHex(fmt, s).Some? {
        WithoutSkippingSame(fmt, s, t);
      } else if FromHex(fmt, t).Some? {
        WithoutSkippingSame(fmt, t, s);
      }
    }
  }

  lemma OnlySpaces(fmt: Format, s: string, t: string)
    requires SameUpToSeparators(s, t) && FromHex(fmt, s).Some? && FromHex(fmt, t).Some?
    ensures s == t
  {
    forall i | 0 <= i < |s| ensures s[i] == t[i] {
      if s[i] in SEPARATORS && t[i] in SEPARATORS {
        BytesTextSeparators(fmt, s, i);
        BytesTextSeparators(fmt, t, i);
      }
    }
  }

  lemma WithoutSkippingSame(fmt: Format, s: string, t: string)
    requires SameUpToSeparators(s, t) && FromHex(fmt, s).Some? && !fmt.hex.bytesSkipBlanks
    ensures s == t
  {
    forall i | 0 <= i < |s| ensures s[i] == t[i] {
      if s[i] in SEPARATORS {
        BytesTextSeparators(fmt, s, i);
      }
    }
  }

  /** That separators are interchangeable holds for all strings exactly when the bytes form
      rejects blanks. */
  lemma SeparatorLaw(fmt: Format)
    ensures (forall s: string, t: string :: SameUpToSeparators(s, t) ==> ParseExtrinsic(fmt, s) == ParseExtrinsic(fmt, t))
            <==> !fmt.hex.bytesSkipBlanks
  {
    if fmt.hex.bytesSkipBlanks {
      var s, t := SkippedSpace(fmt);
      assert SameUpToSeparators(s, t) && ParseExtrinsic(fmt, s) != ParseExtrinsic(fmt, t);
    } else {
      forall s: string, t: string | SameUpToSeparators(s, t) ensures ParseExtrinsic(fmt, s) == ParseExtrinsic(fmt, t) {
        SeparatorsAreInterchangeable(fmt, s, t);
      }
    }
  }

  /** That a tail is ignored holds for all strings under exactly the same condition. */
  lemma TailLaw(fmt: Format)
    ensures (forall s: string, tail: string :: !NoSeparator(s) && tail != [] && tail[0] in SEPARATORS
                                           ==> ParseExtrinsic(fmt, s + tail) == ParseExtrinsic(fmt, s))
            <==> !fmt.hex.bytesSkipBlanks
  {
    if fmt.hex.bytesSkipBlanks {
      var s, t := SkippedSpace(fmt);
      TailFails(fmt, s, ":");
    } else {
      forall s: string, tail: string | !NoSeparator(s) && tail != [] && tail[0] in SEPARATORS
        ensures ParseExtrinsic(fmt, s + tail) == ParseExtrinsic(fmt, s)
      {
        TailIsSafelyIgnored(fmt, s, tail);
      }
    }
  }

  /** A colon appended to a text makes it no longer of the bytes form. */
  lemma TailFails(fmt: Format, s: string, tail: string)
    requires FromHex(fmt, s).Some? && !NoSeparator(s) && tail == ":"
    ensures tail != [] && tail[0] in SEPARATORS && ParseExtrinsic(fmt, s + tail) != ParseExtrinsic(fmt, s)
  {
    FirstTwoPieces(s, tail);
    assert (s + tail)[|s|] == ':';
    NotBytes(fmt, s + tail, |s|);
  }

  lemma BytesExample(fmt: Format, s: string)
    requires s == "0x0012345f"
    ensures FromHex(fmt, s) == Some([0, 0x12, 0x34, 0x5f])
  {
    HexExample();
    assert s[2..] == "0012345f";
  }

  /** The examples of the repository's tests, whatever the libraries do with blanks. */
  lemma BlockExamples(fmt: Format, s: string, t: string)
    requires fmt.hashBytes == 20 && fmt.numberMax == U64_MAX && s == "1234" && t == "0x0012345f"
    ensures ParseBlock(fmt, s) == Ok(Number(1234))
    ensures ParseBlock(fmt, t) == Ok(Bytes([0, 0x12, 0x34, 0x5f]))
  {
    DecimalExample(U64_MAX);
    BlockRoundTrip(fmt, Number(1234));
    BytesExample(fmt, t);
    PrefixIsUnambiguous(fmt, t);
  }

  lemma ExtrinsicExamples(fmt: Format, s: string, t: string)
    requires fmt.hashBytes == 20 && fmt.numberMax == U64_MAX && s == "1234" && t == "0 0"
    ensures ParseExtrinsic(fmt, s) == Err(IndexMissing)
    ensures ParseExtrinsic(fmt, t) == Ok(InBlock(Number(0), 0))
  {
    MissingIndexExample(fmt, s);
    SpacedZeroNumbers(fmt, t);
  }

  lemma MissingIndexExample(fmt: Format, s: string)
    requires fmt.hashBytes == 20 && fmt.numberMax == U64_MAX && s == "1234"
    ensures ParseExtrinsic(fmt, s) == Err(IndexMissing)
  {
    BlockExamples(fmt, s, "0x0012345f");
    PrefixInCharacters(s);
    assert s[0] == '1' && s[1] == '2' && s[2] == '3' && s[3] == '4';
    ExtrinsicResults(fmt, s, "", "", "");
  }

  lemma SpacedZeroNumbers(fmt: Format, t: string)
    requires fmt.hashBytes == 20 && t == "0 0"
    ensures ParseExtrinsic(fmt, t) == Ok(InBlock(Number(0), 0))
  {
    ZeroNumber(fmt);
    PrefixInCharacters(t);
    IntegerRoundTrip(0, fmt.indexMax);
    assert Decimal(0) == "0";
    assert t[2..] == "0" + "" && t[..1] == "0";
    ExtrinsicResults(fmt, t, "0", "0", "");
  }

  /** A text with an unreadable index. */
  lemma InvalidIndexExample(fmt: Format, s: string)
    requires fmt.hashBytes == 20 && s == "0:x"
    ensures ParseExtrinsic(fmt, s) == Err(InvalidIndex)
  {
    PrefixInCharacters(s);
    ZeroNumber(fmt);
    AccumulateIsBoundedValue("x", fmt.indexMax);
    assert s[2..] == "x" + "" && s[..1] == "0";
    ExtrinsicResults(fmt, s, "0", "x", "");
  }

  /** A text with a character none is split at. */
  lemma NoSeparatorExample(fmt: Format, s: string)
    requires fmt.hashBytes == 20 && s == "0-0"
    ensures ParseExtrinsic(fmt, s) == Err(NotABlock)
  {
    PrefixInCharacters(s);
    NotANumber(fmt, s);
    ExtrinsicResults(fmt, s, "", "", "");
  }

  lemma ZeroNumber(fmt: Format)
    requires fmt.hashBytes == 20
    ensures ParseBlock(fmt, "0") == Ok(Number(0))
  {
    DecimalDenotes(0);
    BlockRoundTrip(fmt, Number(0));
    assert Decimal(0) == "0";
  }

  lemma NotANumber(fmt: Format, s: string)
    requires fmt.hashBytes == 20 && s == "0-0"
    ensures ParseBlock(fmt, s).Err?
  {
    assert s[1] == '-' && !IsHex('-') && !IsBlank('-');
    AccumulateIsBoundedValue(s, fmt.numberMax);
    HexAccepts(s);
  }
}
