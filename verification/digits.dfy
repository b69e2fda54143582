/** Positional notation as Python spells it: int(s, base) reading a digit string,
    bin(v)[2:] and hex(v)[2:].upper() writing the shortest one, and str.zfill(width)
    or format(v, '0wb') padding it with leading zeros. Bases 2 to 16 only. */
module Digits {
  import opened Arith

  function Pow(base: nat, e: nat): (r: nat)
    ensures base >= 1 ==> r >= 1
  {
    if e == 0 then 1 else base * Pow(base, e - 1)
  }

  predicate IsBase(base: nat) {
    2 <= base <= 16
  }

  const UPPER_DIGITS: string := "0123456789ABCDEF"

  /** The upper-case digit character for d, as hex(...).upper() and bin(...) print it. */
  function DigitChar(d: nat): (c: char)
    requires d < 16
    ensures DigitValue(c) == d
  {
    UPPER_DIGITS[d]
  }

  /** The value int() gives one ASCII alphanumeric digit, in either case; 36 for any other character. */
  function DigitValue(c: char): (v: nat)
    ensures v <= 36
  {
    if '0' <= c <= '9' then c as int - '0' as int
    else if 'A' <= c <= 'Z' then c as int - 'A' as int + 10
    else if 'a' <= c <= 'z' then c as int - 'a' as int + 10
    else 36
  }

  predicate IsBit(c: char) {
    c == '0' || c == '1'
  }

  /** A string over '0' and '1'. */
  predicate IsBits(s: string) {
    forall i :: 0 <= i < |s| ==> IsBit(s[i])
  }

  /** int(c) of a bit character. */
  function BitValue(c: char): (v: nat)
    ensures v < 2 && (IsBit(c) ==> v == DigitValue(c))
  {
    if c == '1' then 1 else 0
  }

  /** Every character of s is a digit of the base, so int(s, base) does not raise on it. */
  predicate AllDigits(s: string, base: nat) {
    forall i :: 0 <= i < |s| ==> DigitValue(s[i]) < base
  }

  /** Every character of s is an upper-case digit of the base, as this module writes them. */
  predicate Canonical(s: string, base: nat)
    requires base <= 16
  {
    forall i :: 0 <= i < |s| ==> DigitValue(s[i]) < base && DigitChar(DigitValue(s[i])) == s[i]
  }

  /** int(s, base) for a string of digits, most significant first (0 for the empty string,
      which Python rejects; the callers rule that case out first). */
  function Value(s: string, base: nat): (v: nat)
    requires IsBase(base) && AllDigits(s, base)
    ensures v < Pow(base, |s|)
  {
    if s == [] then 0
    else
      var init := s[..|s| - 1];
      var d := DigitValue(s[|s| - 1]);
      var hi := Value(init, base);
      var p := Pow(base, |init|);
      DigitStep(hi, d, p, base);
      assert Pow(base, |s|) == base * p;
      hi * base + d
  }

  /** Appending a digit d < base to a number below p keeps it below p * base. */
  lemma DigitStep(hi: nat, d: nat, p: nat, base: nat)
    requires hi < p && d < base
    ensures 0 <= hi * base + d < p * base && hi * base + d < base * p
  {
    MulMonotone(hi, 0, base);
    MulMonotone(p - 1, hi, base);
    assert (p - 1) * base == p * base - base;
  }

  /** The shortest digit string of v: bin(v)[2:] for base 2, hex(v)[2:].upper() for base 16. */
  function MinDigits(v: nat, base: nat): (r: string)
    requires IsBase(base)
    ensures r != [] && Canonical(r, base)
    decreases v
  {
    if v < base then [DigitChar(v)]
    else MinDigits(v / base, base) + [DigitChar(v % base)]
  }

  /** Reading back the shortest rendering gives the number: int(str(v)) == v in base 10,
      int(bin(v)[2:], 2) == v in base 2. */
  lemma {:induction false} ValueOfMinDigits(v: nat, base: nat)
    requires IsBase(base)
    ensures AllDigits(MinDigits(v, base), base) && Value(MinDigits(v, base), base) == v
    decreases v
  {
    var s := MinDigits(v, base);
    if v < base {
      assert s[..|s| - 1] == [] && DigitValue(s[|s| - 1]) == v;
      assert Value(s, base) == 0 * base + v;
    } else {
      var q, r := v / base, v % base;
      ShiftSmaller(v, base);
      ValueOfMinDigits(q, base);
      var init := MinDigits(q, base);
      assert s == init + [DigitChar(r)];
      assert s[..|s| - 1] == init && DigitValue(s[|s| - 1]) == r;
      assert AllDigits(s, base);
      assert Value(s, base) == q * base + r;
      DivModParts(v, base);
    }
  }

  /** str.zfill(width) on a digit string: pad with '0' on the left up to width. */
  function ZFill(s: string, width: nat): (r: string)
    ensures |r| == if |s| < width then width else |s|
    ensures forall i :: 0 <= i < |r| - |s| ==> r[i] == '0'
    ensures r[|r| - |s|..] == s
  {
    if |s| < width then seq(width - |s|, _ => '0') + s else s
  }

  /** The reference notation: exactly `width` digits of v, most significant first. */
  function Fixed(v: nat, base: nat, width: nat): (r: string)
    requires IsBase(base)
    ensures |r| == width && Canonical(r, base)
  {
    if width == 0 then [] else Fixed(v / base, base, width - 1) + [DigitChar(v % base)]
  }

  /** One more digit of Fixed: the digits of v / base followed by the last digit of v. */
  lemma FixedStep(v: nat, base: nat, width: nat, s: string)
    requires IsBase(base) && width > 0 && Fixed(v / base, base, width - 1) == s
    ensures Fixed(v, base, width) == s + [DigitChar(v % base)]
  {
  }

  lemma {:induction false} FixedZero(base: nat, width: nat)
    requires IsBase(base)
    ensures Fixed(0, base, width) == seq(width, _ => '0')
  {
    if width > 0 {
      FixedZero(base, width - 1);
    }
  }

  /** A number that fits in `width` digits gets only leading zeros from a wider rendering. */
  lemma {:induction false} FixedPadded(v: nat, base: nat, width: nat, extra: nat)
    requires IsBase(base) && v < Pow(base, width)
    ensures Fixed(v, base, width + extra) == Fixed(0, base, extra) + Fixed(v, base, width)
    decreases width
  {
    if width == 0 {
      assert v == 0;
    } else {
      assert v / base < Pow(base, width - 1);
      FixedPadded(v / base, base, width - 1, extra);
    }
  }

  /** Reading back a fixed-width rendering gives the number, when it fits. */
  lemma {:induction false} ValueOfFixed(v: nat, base: nat, width: nat)
    requires IsBase(base) && v < Pow(base, width)
    ensures Value(Fixed(v, base, width), base) == v
    decreases width
  {
    if width > 0 {
      var s := Fixed(v, base, width);
      var q, r := v / base, v % base;
      var init := Fixed(q, base, width - 1);
      FitsAfterShift(v, base, width);
      ValueOfFixed(q, base, width - 1);
      assert s == init + [DigitChar(r)];
      assert s[..|s| - 1] == init && DigitValue(s[|s| - 1]) == r;
      assert Value(s, base) == q * base + r;
      DivModParts(v, base);
    }
  }

  /** Rendering the value of an upper-case digit string at its own width gives the string back. */
  lemma {:induction false} FixedOfValue(s: string, base: nat)
    requires IsBase(base) && Canonical(s, base)
    ensures Fixed(Value(s, base), base, |s|) == s
  {
    if s != [] {
      var init := s[..|s| - 1];
      var d := DigitValue(s[|s| - 1]);
      var v := Value(s, base);
      assert v == Value(init, base) * base + d;
      DivModUnique(v, base, Value(init, base), d);
      FixedOfValue(init, base);
      assert s == init + [s[|s| - 1]];
    }
  }

  lemma ZFillSnoc(s: string, c: char, width: nat)
    requires |s| <= width
    ensures ZFill(s + [c], width + 1) == ZFill(s, width) + [c]
  {
    if |s| < width {
      assert seq(width + 1 - |s + [c]|, _ => '0') == seq(width - |s|, _ => '0');
    }
  }

  /** The shortest rendering zero-filled to a width the number fits in is the fixed rendering:
      zfill(bin(v)[2:], w) and format(v, '0wb') both give exactly w digits. */
  lemma {:induction false} ZFillMinDigits(v: nat, base: nat, width: nat)
    requires IsBase(base) && width >= 1 && v < Pow(base, width)
    ensures ZFill(MinDigits(v, base), width) == Fixed(v, base, width)
    decreases v
  {
    if v < base {
      ZFillOneDigit(v, base, width);
    } else {
      FitsAfterShift(v, base, width);
      ShiftSmaller(v, base);
      if width == 1 {
        assert false;
      }
      ZFillMinDigits(v / base, base, width - 1);
      ZFillShift(v, base, width);
    }
  }

  /** The step of ZFillMinDigits: both renderings end in the last digit of v. */
  lemma ZFillShift(v: nat, base: nat, width: nat)
    requires IsBase(base) && width >= 2 && v >= base
    requires ZFill(MinDigits(v / base, base), width - 1) == Fixed(v / base, base, width - 1)
    requires |MinDigits(v / base, base)| <= width - 1
    ensures ZFill(MinDigits(v, base), width) == Fixed(v, base, width)
  {
    var q, r := v / base, v % base;
    var init, c, w := MinDigits(q, base), DigitChar(r), width - 1;
    assert Fixed(v, base, width) == Fixed(q, base, w) + [c];
    assert MinDigits(v, base) == init + [c];
    ZFillSnoc(init, c, w);
  }

  /** A single digit zero-filled to width is the fixed rendering. */
  lemma ZFillOneDigit(v: nat, base: nat, width: nat)
    requires IsBase(base) && width >= 1 && v < base
    ensures ZFill(MinDigits(v, base), width) == Fixed(v, base, width)
  {
    DivModUnique(v, base, 0, v);
    var c := DigitChar(v);
    assert Fixed(v, base, width) == Fixed(0, base, width - 1) + [c];
    assert MinDigits(v, base) == [] + [c];
    FixedZero(base, width - 1);
    ZFillSnoc([], c, width - 1);
    assert ZFill([], width - 1) == seq(width - 1, _ => '0');
  }

  lemma ShiftSmaller(v: nat, base: nat)
    requires IsBase(base) && v >= base
    ensures v / base < v
  {
    DivModUnique(v, base, v / base, v % base);
    MulMonotone(base, 2, v / base);
  }

  /** Dropping the last digit of a number that fits in width digits leaves one that fits in width - 1. */
  lemma FitsAfterShift(v: nat, base: nat, width: nat)
    requires IsBase(base) && width >= 1 && v < Pow(base, width)
    ensures v / base < Pow(base, width - 1)
  {
    var p := Pow(base, width - 1);
    assert Pow(base, width) == base * p;
    DivModParts(v, base);
    if v / base >= p {
      MulMonotone(v / base, p, base);
    }
  }


  /** Sixteen is two to the fourth: w hex digits carry exactly 4 * w bits. */
  lemma {:induction false} PowHex(width: nat)
    ensures Pow(16, width) == Pow(2, 4 * width)
  {
    if width > 0 {
      PowHex(width - 1);
      var k := 4 * (width - 1);
      assert Pow(2, k + 4) == 2 * Pow(2, k + 3);
      assert Pow(2, k + 3) == 2 * Pow(2, k + 2);
      assert Pow(2, k + 2) == 2 * Pow(2, k + 1);
      assert Pow(2, k + 1) == 2 * Pow(2, k);
    }
  }

  /** The binary digits int(s, 2) accepts are exactly the bit characters, and they are already
      in the form this module writes. */
  lemma BinaryDigits(s: string)
    ensures IsBits(s) <==> AllDigits(s, 2)
    ensures IsBits(s) <==> Canonical(s, 2)
  {
    assert DigitChar(0) == '0' && DigitChar(1) == '1';
    if AllDigits(s, 2) {
      forall i | 0 <= i < |s|
        ensures IsBit(s[i])
      {
        assert DigitValue(s[i]) < 2;
      }
    }
  }
}
