/** The text, binary and hexadecimal converters of the pipeline. Bits are '0'/'1' characters,
    eight per character of text, most significant first; hexadecimal is upper case. */
module Utilities {
  import opened Wrappers
  import opened Text
  import opened Digits
  import opened Arith
  import opened Tokens

  /** format(ord(c), '08b'): the binary digits of the code, zero-filled to eight; a byte is
      written as exactly eight bits (CharBitsFormat). */
  function CharBits(c: char): (r: string)
    ensures |r| >= 8 && IsBits(r)
    ensures c as int < 256 ==> |r| == 8
  {
    var v := c as int;
    if v < 256 then
      BinaryDigits(Fixed(v, 2, 8));
      Fixed(v, 2, 8)
    else
      BinaryDigits(MinDigits(v, 2));
      ZFill(MinDigits(v, 2), 8)
  }

  /** CharBits is exactly format(ord(c), '08b'), that is bin(ord(c)) zero-filled to eight. */
  lemma CharBitsFormat(c: char)
    ensures CharBits(c) == ZFill(MinDigits(c as int, 2), 8)
  {
    if c as int < 256 {
      assert Pow(2, 8) == 256;
      ZFillMinDigits(c as int, 2, 8);
    }
  }

  /** text_to_binary: the bits of every character, one after another. */
  function TextToBinary(text: string): (r: string)
    ensures IsBits(r)
    ensures IsLatin1(text) ==> |r| == 8 * |text|
  {
    if text == [] then [] else CharBits(text[0]) + TextToBinary(text[1..])
  }

  /** binary_to_text: every run of eight bits (the last run may be shorter) read as a number
      and turned into the character with that code. */
  function BinaryToText(binary: string): (r: string)
    requires IsBits(binary)
    ensures |r| == CeilDiv(|binary|, 8)
    ensures IsLatin1(r)
    decreases |binary|
  {
    if binary == [] then []
    else
      var n := if |binary| < 8 then |binary| else 8;
      var chunk := binary[..n];
      BinaryDigits(chunk);
      ChunkBelow256(chunk);
      [Value(chunk, 2) as char] + BinaryToText(binary[n..])
  }

  lemma ChunkBelow256(chunk: string)
    requires |chunk| <= 8 && AllDigits(chunk, 2)
    ensures Value(chunk, 2) < 256
  {
    PowMonotone(2, |chunk|, 8);
    assert Pow(2, 8) == 256;
  }

  lemma {:induction false} PowMonotone(base: nat, a: nat, b: nat)
    requires base >= 1 && a <= b
    ensures Pow(base, a) <= Pow(base, b)
    decreases b
  {
    if a < b {
      PowMonotone(base, a, b - 1);
      MulMonotoneNat(Pow(base, b - 1), base);
    }
  }

  lemma MulMonotoneNat(x: nat, base: nat)
    requires base >= 1
    ensures x <= base * x
  {
    assert base * x == x + (base - 1) * x;
  }

  // ---------------------------------------------------------------------------
  // int(s, base), hex() and bin()

  /** The base prefix int() accepts after the sign: "0b" or "0B" in base 2, "0x" or "0X" in
      base 16. */
  predicate HasPrefix(s: string, base: nat) {
    |s| >= 2 && s[0] == '0' &&
    (if base == 2 then s[1] == 'b' || s[1] == 'B' else s[1] == 'x' || s[1] == 'X')
  }

  /** The whitespace int() skips around a number: the ASCII characters \t \n \v \f \r and
      space, and every non-ASCII character str.isspace() accepts. The ASCII information
      separators U+001C to U+001F count as whitespace for str.isspace() and str.strip(), but
      int() does not skip them. */
  predicate IntSpace(c: char) {
    var k := c as int;
    (9 <= k <= 13) || k == 32 || (k >= 127 && IsWhitespace(c))
  }

  /** The characters U+001C to U+001F. */
  predicate IsSeparator(c: char) {
    28 <= c as int <= 31
  }

  /** Whitespace int() skips is whitespace for str.strip(), and the rest of that whitespace
      is an information separator. */
  lemma IntSpaceIsWhitespace(c: char)
    ensures IntSpace(c) <==> IsWhitespace(c) && !IsSeparator(c)
  {
  }

  /** The number of characters int() skips at the front of s. */
  function Leading(s: string): (n: nat)
    ensures n <= |s|
  {
    if s != [] && IntSpace(s[0]) then 1 + Leading(s[1..]) else 0
  }

  /** The number of characters int() skips at the end of s. */
  function Trailing(s: string): (n: nat)
    ensures n <= |s|
  {
    if s != [] && IntSpace(s[|s| - 1]) then 1 + Trailing(s[..|s| - 1]) else 0
  }

  /** The text int() reads: s without its trailing and then its leading whitespace. */
  function Trimmed(s: string): (r: string)
    ensures |r| <= |s|
  {
    var front := s[..|s| - Trailing(s)];
    front[Leading(front)..]
  }

  /** On text without information separators, the whitespace int() ignores is what
      str.strip() removes. */
  lemma TrimmedIsStrip(s: string)
    requires forall i :: 0 <= i < |s| ==> !IsSeparator(s[i])
    ensures Trimmed(s) == Strip(s)
  {
    TrailingIsRStrip(s);
    LeadingIsLStrip(s[..|s| - Trailing(s)]);
  }

  lemma {:induction false} TrailingIsRStrip(s: string)
    requires forall i :: 0 <= i < |s| ==> !IsSeparator(s[i])
    ensures RStrip(s) == s[..|s| - Trailing(s)]
  {
    if s != [] {
      IntSpaceIsWhitespace(s[|s| - 1]);
      if IsWhitespace(s[|s| - 1]) {
        var init := s[..|s| - 1];
        assert forall i :: 0 <= i < |init| ==> init[i] == s[i];
        TrailingIsRStrip(init);
        assert init[..|init| - Trailing(init)] == s[..|s| - Trailing(s)];
      }
    }
  }

  lemma {:induction false} LeadingIsLStrip(s: string)
    requires forall i :: 0 <= i < |s| ==> !IsSeparator(s[i])
    ensures LStrip(s) == s[Leading(s)..]
  {
    if s != [] {
      IntSpaceIsWhitespace(s[0]);
      if IsWhitespace(s[0]) {
        assert forall i :: 0 <= i < |s[1..]| ==> s[1..][i] == s[i + 1];
        LeadingIsLStrip(s[1..]);
        assert s[1..][Leading(s[1..])..] == s[Leading(s)..];
      }
    }
  }

  /** str.strip() removes an information separator in front of a number, but int() raises
      on it: "\x1c41" is not read in base 16. */
  lemma SeparatorNotSkipped(s: string)
    requires s == [28 as char, '4', '1']
    ensures Strip(s) == s[1..]
    ensures Trimmed(s) == s && ParseBase(s, 16) == None
  {
    assert Trailing(s) == 0 && Leading(s) == 0;
    assert Unsigned(s, 16) == s && DigitValue(s[0]) >= 16;
    assert RStrip(s) == s;
    assert LStrip(s[1..]) == s[1..];
  }

  /** int(s, base) for base 2 or 16: whitespace around the number is ignored, then come an
      optional '+' or '-', an optional base prefix and at least one ASCII digit of the base.
      None where int() raises ValueError, and also on underscores between digits or non-ASCII
      digits, which int() would read. */
  function ParseBase(s: string, base: nat): (r: Option<int>)
    requires base == 2 || base == 16
    ensures r.Some? ==> Trimmed(s) != [] && s != []
    ensures r.Some? && r.value < 0 ==> Trimmed(s)[0] == '-'
    ensures s != [] && AllDigits(s, base) ==> r == Some(Value(s, base))
  {
    PlainDigits(s, base);
    var t := Trimmed(s);
    var digits := Unsigned(t, base);
    if digits == [] || !AllDigits(digits, base) then None
    else
      var magnitude: int := Value(digits, base);
      Some(if t[0] == '-' then -magnitude else magnitude)
  }

  /** What int() reads as digits: t without its sign and then without its base prefix. */
  function Unsigned(t: string, base: nat): (digits: string)
    ensures |digits| <= |t|
    ensures t != [] && t[0] != '+' && t[0] != '-' && !HasPrefix(t, base) ==> digits == t
  {
    var unsigned := if t != [] && (t[0] == '+' || t[0] == '-') then t[1..] else t;
    if HasPrefix(unsigned, base) then unsigned[2..] else unsigned
  }

  /** Digits of a base up to 16 are neither whitespace, a sign nor a prefix letter. */
  lemma PlainDigits(s: string, base: nat)
    requires base == 2 || base == 16
    ensures s != [] && AllDigits(s, base) ==>
      Trimmed(s) == s && s[0] != '+' && s[0] != '-' && !HasPrefix(s, base)
  {
    if s != [] && AllDigits(s, base) {
      assert Trimmed(s) == s by {
        DigitIsPlain(s[|s| - 1]);
        DigitIsPlain(s[0]);
      }
      assert s[0] != '+' && s[0] != '-' by {
        DigitIsPlain(s[0]);
      }
      assert !HasPrefix(s, base) by {
        if |s| >= 2 {
          assert DigitValue(s[1]) < base;
        }
      }
    }
  }

  /** A character int() reads as a digit is an ASCII letter or digit. */
  lemma DigitIsPlain(c: char)
    requires DigitValue(c) < 36
    ensures !IsWhitespace(c) && !IntSpace(c) && c != '+' && c != '-'
  {
  }

  /** The number int() reads has no more digits than the string has characters. */
  lemma ParseBaseBound(s: string, base: nat)
    requires base == 2 || base == 16
    ensures ParseBase(s, base).Some? ==>
      -(Pow(base, |s|) as int) < ParseBase(s, base).value < Pow(base, |s|)
  {
    var digits := Unsigned(Trimmed(s), base);
    if ParseBase(s, base).Some? {
      PowMonotone(base, |digits|, |s|);
    }
  }

  /** hex(v)[2:].upper(): the shortest upper-case hexadecimal digits. For a negative v hex()
      writes "-0x…", so the slice keeps the 'x', which upper() makes 'X'. */
  function HexText(v: int): (r: string)
    ensures r != [] && (Canonical(r, 16) <==> v >= 0)
  {
    var digits := MinDigits(if v < 0 then -v else v, 16);
    if v < 0 then
      assert DigitValue(("X" + digits)[0]) >= 16;
      "X" + digits
    else digits
  }

  /** bin(v)[2:]: the shortest binary digits. For a negative v bin() writes "-0b…", so the
      slice keeps the 'b'. */
  function BinText(v: int): (r: string)
    ensures r != [] && (IsBits(r) <==> v >= 0)
  {
    var digits := MinDigits(if v < 0 then -v else v, 2);
    BinaryDigits(digits);
    if v < 0 then
      assert !IsBit(("b" + digits)[0]);
      "b" + digits
    else digits
  }

  /** Zero-filling adds only '0's, which are bits and hexadecimal digits. */
  lemma ZFillKeeps(s: string, width: nat)
    ensures IsBits(ZFill(s, width)) <==> IsBits(s)
    ensures Canonical(ZFill(s, width), 16) <==> Canonical(s, 16)
  {
    var r := ZFill(s, width);
    var k := |r| - |s|;
    assert r[k..] == s;
    if IsBits(s) {
      forall i | 0 <= i < |r| ensures IsBit(r[i]) {
        if i >= k {
          assert r[i] == s[i - k];
        }
      }
    }
    if IsBits(r) {
      forall i | 0 <= i < |s| ensures IsBit(s[i]) {
        assert s[i] == r[k + i];
      }
    }
    if Canonical(s, 16) {
      forall i | 0 <= i < |r| ensures DigitValue(r[i]) < 16 && DigitChar(DigitValue(r[i])) == r[i] {
        if i >= k {
          assert r[i] == s[i - k];
        } else {
          assert DigitChar(0) == '0';
        }
      }
    }
    if Canonical(r, 16) {
      forall i | 0 <= i < |s| ensures DigitValue(s[i]) < 16 && DigitChar(DigitValue(s[i])) == s[i] {
        assert s[i] == r[k + i];
      }
    }
  }

  /** binary_to_hex: the number int(binary, 2) reads, rendered by hex()[2:].upper() and
      zero-filled to len(binary) // 4 digits; None where ParseBase fails. */
  function BinaryToHex(binary: string): (r: Option<string>)
    ensures r.None? <==> ParseBase(binary, 2).None?
    ensures r.Some? ==> |r.value| >= |binary| / 4
    ensures r.Some? ==> (Canonical(r.value, 16) <==> ParseBase(binary, 2).value >= 0)
    ensures binary != [] && IsBits(binary) ==> r.Some? && Canonical(r.value, 16)
  {
    BinaryDigits(binary);
    var v := ParseBase(binary, 2);
    if v.None? then None
    else
      var digits := HexText(v.value);
      ZFillKeeps(digits, |binary| / 4);
      Some(ZFill(digits, |binary| / 4))
  }

  /** hex_to_binary: the number int(hex, 16) reads, rendered by bin()[2:] and zero-filled to
      4 * len(hex) characters; None where ParseBase fails. The result is all bits exactly when
      the number is not negative, and then has exactly four bits per character of hex. */
  function HexToBinary(hex: string): (r: Option<string>)
    ensures r.None? <==> ParseBase(hex, 16).None?
    ensures r.Some? ==> |r.value| >= 4 * |hex|
    ensures r.Some? ==> (IsBits(r.value) <==> ParseBase(hex, 16).value >= 0)
    ensures r.Some? && IsBits(r.value) ==> |r.value| == 4 * |hex|
  {
    var v := ParseBase(hex, 16);
    if v.None? then None
    else
      var bits := BinText(v.value);
      ZFillKeeps(bits, 4 * |hex|);
      if v.value >= 0 then
        NibblesFit(hex);
        Some(ZFill(bits, 4 * |hex|))
      else Some(ZFill(bits, 4 * |hex|))
  }

  /** A number int(hex, 16) reads without a sign fits in four bits per character of hex, so
      zfill pads bin()'s digits to exactly that width. */
  lemma NibblesFit(hex: string)
    requires ParseBase(hex, 16).Some? && ParseBase(hex, 16).value >= 0
    ensures ZFill(BinText(ParseBase(hex, 16).value), 4 * |hex|)
         == Fixed(ParseBase(hex, 16).value, 2, 4 * |hex|)
  {
    ParseBaseBound(hex, 16);
    BinTextFits(ParseBase(hex, 16).value, |hex|);
  }

  /** A number below 16^n has at most 4n bits, so zfill(4n) of bin()[2:] is its 4n-bit form. */
  lemma BinTextFits(v: nat, n: nat)
    requires n >= 1 && v < Pow(16, n)
    ensures ZFill(BinText(v), 4 * n) == Fixed(v, 2, 4 * n)
  {
    PowHex(n);
    ZFillMinDigits(v, 2, 4 * n);
  }

  // ---------------------------------------------------------------------------
  // Round trips

  /** binary_to_text reads a leading run of eight bits as one character. */
  lemma BinaryToTextCons(chunk: string, rest: string)
    requires |chunk| == 8 && IsBits(chunk) && IsBits(rest)
    ensures AllDigits(chunk, 2) && IsBits(chunk + rest)
    ensures BinaryToText(chunk + rest) == [Value(chunk, 2) as char] + BinaryToText(rest)
  {
    BinaryDigits(chunk);
    var b := chunk + rest;
    assert b[..8] == chunk && b[8..] == rest;
  }

  /** The eight bits of a character below 256 read back as that character. */
  lemma ByteRoundTrip(c: char)
    requires c as int < 256
    ensures AllDigits(CharBits(c), 2) && Value(CharBits(c), 2) as char == c
  {
    BinaryDigits(CharBits(c));
    assert Pow(2, 8) == 256;
    ValueOfFixed(c as int, 2, 8);
  }

  /** Text below code point 256 survives the trip to bits and back. */
  lemma {:induction false} TextRoundTrip(text: string)
    requires IsLatin1(text)
    ensures BinaryToText(TextToBinary(text)) == text
  {
    if text != [] {
      var first := CharBits(text[0]);
      var rest := TextToBinary(text[1..]);
      assert TextToBinary(text) == first + rest;
      BinaryToTextCons(first, rest);
      ByteRoundTrip(text[0]);
      TextRoundTrip(text[1..]);
      assert text == [text[0]] + text[1..];
    }
  }

  /** Whole bytes of bits survive the trip to text and back. */
  lemma {:induction false} BinaryRoundTrip(binary: string)
    requires IsBits(binary) && |binary| % 8 == 0
    ensures TextToBinary(BinaryToText(binary)) == binary
    decreases |binary|
  {
    if binary != [] {
      var chunk, rest := binary[..8], binary[8..];
      assert binary == chunk + rest;
      BinaryToTextCons(chunk, rest);
      var c := Value(chunk, 2) as char;
      var text := BinaryToText(rest);
      assert CharBits(c) == chunk by {
        ChunkBelow256(chunk);
        BinaryDigits(chunk);
        FixedOfValue(chunk, 2);
      }
      assert ([c] + text)[1..] == text;
      BinaryRoundTrip(rest);
    }
  }

  /** With a whole number of nibbles, binary_to_hex writes the value of the bits as exactly
      one hexadecimal digit per four bits. */
  lemma BinaryToHexFixed(binary: string)
    requires binary != [] && IsBits(binary) && |binary| % 4 == 0
    ensures AllDigits(binary, 2) && BinaryToHex(binary) == Some(Fixed(Value(binary, 2), 16, |binary| / 4))
  {
    var w := |binary| / 4;
    BinaryDigits(binary);
    PowHex(w);
    assert 4 * w == |binary|;
    ZFillMinDigits(Value(binary, 2), 16, w);
  }

  /** hex_to_binary writes the value of the digits as exactly four bits per digit. */
  lemma HexToBinaryFixed(hex: string)
    requires hex != [] && AllDigits(hex, 16)
    ensures HexToBinary(hex) == Some(Fixed(Value(hex, 16), 2, 4 * |hex|))
  {
    NibblesFit(hex);
  }

  /** With a whole number of nibbles, binary_to_hex gives exactly one digit per four bits,
      and hex_to_binary gives the bits back. */
  lemma HexRoundTrip(binary: string)
    requires binary != [] && IsBits(binary) && |binary| % 4 == 0
    ensures BinaryToHex(binary).Some?
    ensures |BinaryToHex(binary).value| == |binary| / 4
    ensures HexToBinary(BinaryToHex(binary).value) == Some(binary)
  {
    var w := |binary| / 4;
    BinaryDigits(binary);
    var v := Value(binary, 2);
    var hex := Fixed(v, 16, w);
    assert BinaryToHex(binary) == Some(hex) by {
      BinaryToHexFixed(binary);
    }
    assert Value(hex, 16) == v by {
      PowHex(w);
      assert 4 * w == |binary| && v < Pow(2, |binary|);
      ValueOfFixed(v, 16, w);
    }
    assert HexToBinary(hex) == Some(binary) by {
      HexToBinaryFixed(hex);
      assert 4 * w == |binary|;
      FixedOfValue(binary, 2);
    }
  }

  /** Upper-case hexadecimal survives the trip to bits and back. */
  lemma BinaryRoundTripHex(hex: string)
    requires hex != [] && Canonical(hex, 16)
    ensures HexToBinary(hex).Some?
    ensures |HexToBinary(hex).value| == 4 * |hex|
    ensures BinaryToHex(HexToBinary(hex).value) == Some(hex)
  {
    HexToBinaryFixed(hex);
    FixedBitsBack(hex);
  }

  /** The 4 * len(hex) bits of hex's value read back as hex. */
  lemma FixedBitsBack(hex: string)
    requires hex != [] && Canonical(hex, 16)
    ensures |Fixed(Value(hex, 16), 2, 4 * |hex|)| == 4 * |hex|
    ensures BinaryToHex(Fixed(Value(hex, 16), 2, 4 * |hex|)) == Some(hex)
  {
    var v := Value(hex, 16);
    var bits := Fixed(v, 2, 4 * |hex|);
    BinaryDigits(bits);
    assert Value(bits, 2) == v by {
      PowHex(|hex|);
      ValueOfFixed(v, 2, 4 * |hex|);
    }
    assert |bits| % 4 == 0 && |bits| / 4 == |hex| by {
      RowCol(|hex|, 4, 0);
    }
    BinaryToHexFixed(bits);
    FixedOfValue(hex, 16);
  }

  // ---------------------------------------------------------------------------
  // Worked values

  /** The eight bits of 65, the code of 'A', one digit at a time. */
  lemma LetterBits(bits: string)
    requires bits == "01000001"
    ensures Fixed(65, 2, 8) == bits
  {
    FixedStep(0, 2, 1, []);
    FixedStep(1, 2, 2, "0");
    FixedStep(2, 2, 3, "01");
    FixedStep(4, 2, 4, "010");
    FixedStep(8, 2, 5, "0100");
    FixedStep(16, 2, 6, "01000");
    FixedStep(32, 2, 7, "010000");
    FixedStep(65, 2, 8, "0100000");
  }

  /** 'A' is 01000001, and back. */
  lemma TextExample(text: string, bits: string)
    requires text == "A" && bits == "01000001"
    ensures TextToBinary(text) == bits && BinaryToText(bits) == text
  {
    assert TextToBinary(text) == bits by {
      assert TextToBinary(text) == CharBits('A') + TextToBinary([]);
      LetterBits(bits);
    }
    TextRoundTrip(text);
  }

  /** 0x41 is 01000001. */
  lemma HexExample(hex: string, bits: string)
    requires hex == "41" && bits == "01000001"
    ensures HexToBinary(hex) == Some(bits)
  {
    assert AllDigits(hex, 16);
    assert Value(hex, 16) == 65;
    HexToBinaryFixed(hex);
    LetterBits(bits);
  }

  /** 01000001 is 0x41. */
  lemma BinaryExample(hex: string, bits: string)
    requires hex == "41" && bits == "01000001"
    ensures BinaryToHex(bits) == Some(hex)
  {
    LetterBits(bits);
    LetterHex(bits);
    LetterDigits(hex);
  }

  /** The two hexadecimal digits of 65. */
  lemma LetterDigits(hex: string)
    requires hex == "41"
    ensures Fixed(65, 16, 2) == hex
  {
    FixedStep(4, 16, 1, []);
    FixedStep(65, 16, 2, "4");
  }

  /** The eight bits of 65 are the two hexadecimal digits of 65. */
  lemma LetterHex(bits: string)
    requires bits == Fixed(65, 2, 8)
    ensures BinaryToHex(bits) == Some(Fixed(65, 16, 2))
  {
    ValueOfFixed(65, 2, 8);
    BinaryDigits(bits);
    BinaryToHexFixed(bits);
  }

  /** An empty string or a stray character makes int() fail in both hexadecimal converters. */
  lemma ConverterFailures(empty: string, binary: string, hex: string)
    requires empty == [] && binary == "0120" && hex == "4G"
    ensures BinaryToHex(empty) == None && HexToBinary(empty) == None
    ensures BinaryToHex(binary) == None && HexToBinary(hex) == None
  {
    assert BinaryToHex(empty) == None by {
      assert ParseBase(empty, 2) == None;
    }
    assert HexToBinary(empty) == None by {
      assert ParseBase(empty, 16) == None;
    }
    assert BinaryToHex(binary) == None by {
      TrimmedPlain(binary);
      assert Unsigned(binary, 2) == binary && DigitValue(binary[2]) >= 2;
    }
    assert HexToBinary(hex) == None by {
      TrimmedPlain(hex);
      assert Unsigned(hex, 16) == hex && DigitValue(hex[1]) >= 16;
    }
  }

  /** Text that neither starts nor ends with whitespace is read as it is. */
  lemma TrimmedPlain(s: string)
    requires s != [] && !IsWhitespace(s[0]) && !IsWhitespace(s[|s| - 1])
    ensures Trimmed(s) == s
  {
  }

  /** int() reads the digits left after trimming, the sign and the prefix. */
  lemma ReadsAs(s: string, base: nat, t: string, digits: string, v: int)
    requires base == 2 || base == 16
    requires Trimmed(s) == t && t != [] && Unsigned(t, base) == digits
    requires digits != [] && AllDigits(digits, base) && Value(digits, base) == v
    ensures ParseBase(s, base) == Some(if t[0] == '-' then -v else v)
  {
  }

  /** Sixteen bits of 65: eight zeros in front of the bits of 'A'. */
  lemma PaddedLetter(bits: string)
    requires bits == "0000000001000001"
    ensures Fixed(65, 2, 16) == bits
  {
    var low := bits[8..];
    assert low == "01000001";
    assert bits[..8] == seq(8, _ => '0');
    LetterBits(low);
    FixedZero(2, 8);
    FixedPadded(65, 2, 8, 8);
    assert bits == bits[..8] + low;
  }

  /** int() accepts a "0x" prefix, and zfill still counts it: "0x41" gives sixteen bits. */
  lemma PrefixedHex(hex: string, bits: string)
    requires hex == "0x41" && bits == "0000000001000001"
    ensures ParseBase(hex, 16) == Some(65)
    ensures HexToBinary(hex) == Some(bits)
  {
    TrimmedPlain(hex);
    TwoDigits(hex[2..]);
    ReadsAs(hex, 16, hex, hex[2..], 65);
    NibblesFit(hex);
    PaddedLetter(bits);
  }

  /** The digits 41 in base 16. */
  lemma TwoDigits(t: string)
    requires t == "41"
    ensures AllDigits(t, 16) && Value(t, 16) == 65
  {
  }

  /** int() ignores whitespace around the digits. */
  lemma PaddedHex(s: string)
    requires s == " 4142 "
    ensures ParseBase(s, 16) == Some(16706)
  {
    var t := s[1..5];
    assert Trimmed(s) == t by {
      assert Trailing(s) == 1;
      assert Leading(s[..5]) == 1;
    }
    FourDigits(t);
    ReadsAs(s, 16, t, t, 16706);
  }

  /** The digits 4142 in base 16. */
  lemma FourDigits(t: string)
    requires t == "4142"
    ensures t[0] != '-' && Unsigned(t, 16) == t && AllDigits(t, 16) && Value(t, 16) == 16706
  {
    assert t[..2] == "41" && Value("41", 16) == 65;
    assert t[..3] == "414" && Value("414", 16) == 1044;
  }

  /** A '-' gives a negative number, whose bin() keeps a 'b' among the bits. */
  lemma NegativeHex(s: string)
    requires s == "-41"
    ensures ParseBase(s, 16) == Some(-65)
    ensures HexToBinary(s).Some? && !IsBits(HexToBinary(s).value)
  {
    TrimmedPlain(s);
    TwoDigits(s[1..]);
    ReadsAs(s, 16, s, s[1..], 65);
  }

  /** The digits 101 in base 2. */
  lemma ThreeBits(t: string)
    requires t == "101"
    ensures AllDigits(t, 2) && Value(t, 2) == 5
  {
    assert t[..2] == "10" && Value("10", 2) == 2;
  }

  /** int() accepts a sign; hex() of the negative number keeps its 'x', upper-cased. */
  lemma SignedBinary(s: string, hex: string)
    requires s == "-101" && hex == "X5"
    ensures ParseBase(s, 2) == Some(-5)
    ensures BinaryToHex(s) == Some(hex)
  {
    TrimmedPlain(s);
    ThreeBits(s[1..]);
    ReadsAs(s, 2, s, s[1..], 5);
    assert HexText(-5) == hex by {
      assert MinDigits(5, 16) == [DigitChar(5)] && DigitChar(5) == '5';
    }
  }

  /** A sign and then the "0b" prefix, in base 2. */
  lemma PrefixedBinary(s: string)
    requires s == "+0b101"
    ensures ParseBase(s, 2) == Some(5)
  {
    TrimmedPlain(s);
    ThreeBits(s[3..]);
    ReadsAs(s, 2, s, s[3..], 5);
  }

  /** A prefix with no digits after it, and a space between the sign and the digits, make
      int() raise. */
  lemma RejectedSyntax(prefix: string, spaced: string)
    requires prefix == "0x" && spaced == "- 1"
    ensures ParseBase(prefix, 16) == None && ParseBase(spaced, 2) == None
  {
    assert ParseBase(prefix, 16) == None by {
      TrimmedPlain(prefix);
      assert Unsigned(prefix, 16) == [];
    }
    assert ParseBase(spaced, 2) == None by {
      TrimmedPlain(spaced);
      assert Unsigned(spaced, 2) == " 1" && DigitValue(' ') >= 2;
    }
  }
}
