/** Number formatting into static buffers (src/util/string.c). */
module Strings {
  import Arith

  const HEX_CHARS: string := "0123456789ABCDEF"

  function Digit(d: nat): (c: char)
    requires d < 16
  {
    HEX_CHARS[d]
  }

  /** The value of a digit; digits and values determine each other. */
  function Value(c: char): nat {
    if '0' <= c <= '9' then c as nat - '0' as nat
    else if 'A' <= c <= 'F' then c as nat - 'A' as nat + 10
    else 0
  }

  lemma ValueOfDigit(d: nat)
    requires d < 16
    ensures Value(Digit(d)) == d
    ensures Digit(d) == '0' <==> d == 0
  {
  }

  /** The digits of n in a base, most significant first. */
  function Format(n: nat, base: nat): (s: string)
    requires 2 <= base <= 16
    ensures |s| > 0
    decreases n
  {
    if n < base then [Digit(n)] else Format(n / base, base) + [Digit(n % base)]
  }

  /** The number a string of digits denotes. */
  function Parse(s: string, base: nat): nat {
    if s == [] then 0 else Parse(s[..|s| - 1], base) * base + Value(s[|s| - 1])
  }

  /** Formatting and parsing are inverse. */
  lemma {:induction false} ParseFormat(n: nat, base: nat)
    requires 2 <= base <= 16
    ensures Parse(Format(n, base), base) == n
    decreases n
  {
    hide Digit, Value, Parse;
    if n < base {
      ParseDigit(n, base);
    } else {
      QuotientPositive(n, base);
      QuotientSmaller(n, base);
      ParseFormat(n / base, base);
      ParseStep(n, base, Format(n / base, base));
    }
  }

  lemma ParseDigit(n: nat, base: nat)
    requires n < 16
    ensures Parse([Digit(n)], base) == n
  {
    ValueOfDigit(n);
    hide Digit, Value;
    assert [Digit(n)][..0] == [];
    assert Parse([], base) == 0;
  }

  /** A digit after the text of the quotient gives the text of the number. */
  lemma ParseStep(n: nat, base: nat, text: string)
    requires 0 < base <= 16 && Parse(text, base) == n / base
    ensures n % base < base && Parse(text + [Digit(n % base)], base) == n
  {
    hide Digit, Value, Parse;
    Recombine(n, base);
    ValueOfDigit(n % base);
    ParseSnoc(text, Digit(n % base), base);
  }

  lemma Recombine(n: nat, base: nat)
    requires base > 0
    ensures n / base * base + n % base == n && n % base < base
  {
  }

  lemma QuotientSmaller(n: nat, base: nat)
    requires 2 <= base <= n
    ensures 0 <= n / base < n
  {
    Recombine(n, base);
    Arith.Distribute(base, 2, n / base);
  }

  lemma ParseSnoc(s: string, c: char, base: nat)
    ensures Parse(s + [c], base) == Parse(s, base) * base + Value(c)
  {
    assert (s + [c])[..|s|] == s;
  }

  /** How the formatting loops take a number apart. */
  lemma FormatStep(n: nat, base: nat)
    requires 2 <= base <= 16 && n > 0
    ensures n % base < base
    ensures Format(n, base) == (if n / base == 0 then [] else Format(n / base, base)) + [Digit(n % base)]
  {
    hide Digit;
    if n < base {
      Arith.DivMod(n, base, 0, n);
    } else {
      QuotientPositive(n, base);
    }
  }

  lemma QuotientPositive(n: nat, base: nat)
    requires 0 < base <= n
    ensures n / base > 0
  {
    assert n == n / base * base + n % base;
  }

  /** No leading zero, except for zero itself. */
  lemma {:induction false} NoLeadingZero(n: nat, base: nat)
    requires 2 <= base <= 16
    ensures Format(n, base)[0] == '0' <==> n == 0
    decreases n
  {
    if n < base {
      ValueOfDigit(n);
    } else {
      NoLeadingZero(n / base, base);
    }
  }

  function Power(base: nat, k: nat): nat {
    if k == 0 then 1 else base * Power(base, k - 1)
  }

  lemma {:induction false} FormatLength(n: nat, base: nat, k: nat)
    requires 2 <= base <= 16 && k > 0 && n < Power(base, k)
    ensures |Format(n, base)| <= k
    decreases k
  {
    if n >= base {
      assert k > 1 by {
        assert Power(base, 1) == base * Power(base, 0);
      }
      QuotientBelow(n, base, Power(base, k - 1));
      FormatLength(n / base, base, k - 1);
      hide Power, Digit;
    }
  }

  lemma QuotientBelow(n: nat, base: nat, p: nat)
    requires base > 0 && n < base * p
    ensures n / base < p
  {
    var q := n / base;
    assert q * base <= n;
    Arith.Distribute(q, p, base);
    assert q > p ==> (q - p) * base >= base by {
      if q > p {
        Arith.AtLeastOnce(q - p, base);
      }
    }
  }

  /** What a formatted 64-bit number looks like. */
  lemma HexText(value: nat)
    requires value < 0x1_0000_0000_0000_0000
    ensures 0 < |Format(value, 16)| <= 16
    ensures Parse(Format(value, 16), 16) == value
    ensures Format(value, 16)[0] == '0' <==> value == 0
    ensures value == 0 ==> Format(value, 16) == ['0']
  {
    assert Power(16, 4) == 0x1_0000;
    assert Power(16, 8) == 0x1_0000_0000;
    assert Power(16, 12) == 0x1_0000_0000_0000;
    assert Power(16, 16) == 0x1_0000_0000_0000_0000;
    hide Power, Parse;
    FormatLength(value, 16, 16);
    ParseFormat(value, 16);
    NoLeadingZero(value, 16);
  }

  lemma DecimalText(value: nat)
    requires value < 0x8000_0000
    ensures 0 < |Format(value, 10)| <= 10
    ensures Parse(Format(value, 10), 10) == value
    ensures Format(value, 10)[0] == '0' <==> value == 0
  {
    assert Power(10, 5) == 100_000;
    assert Power(10, 10) == 10_000_000_000;
    hide Power, Parse, Format;
    FormatLength(value, 10, 10);
    ParseFormat(value, 10);
    NoLeadingZero(value, 10);
  }

  /** `hexToString`: fills the buffer from the end. The result is the text from `ptr` up to the
      terminator: at most 16 digits that denote the value, without a leading zero. */
  method HexToString(hexString: array<char>, value: nat) returns (ptr: nat)
    requires hexString.Length == 128 && value < 0x1_0000_0000_0000_0000
    modifies hexString
    ensures 111 <= ptr < 127 && hexString[127] == '\0'
    ensures Parse(hexString[ptr..127], 16) == value
    ensures hexString[ptr] == '0' <==> value == 0
  {
    hide Parse, Digit, Format;
    HexText(value);
    hexString[127] := '\0';
    ptr := 127;
    if value == 0 {
      ptr := ptr - 1;
      hexString[ptr] := '0';
      assert hexString[ptr..127] == ['0'];
    } else {
      var v := value;
      while v > 0
        invariant 0 <= v && (v > 0 ==> Format(value, 16) == Format(v, 16) + hexString[ptr..127])
        invariant v == 0 ==> Format(value, 16) == hexString[ptr..127]
        invariant 111 <= ptr <= 127 && hexString[127] == '\0'
      {
        FormatStep(v, 16);
        ghost var written := hexString[ptr..127];
        assert |Format(value, 16)| == |Format(v, 16)| + (127 - ptr);
        ptr := ptr - 1;
        hexString[ptr] := Digit(v % 16);
        assert hexString[ptr..127] == [Digit(v % 16)] + written;
        v := v / 16;
      }
    }
    assert hexString[ptr..127] == Format(value, 16);
  }

  /** The counting loop of `itoa`. */
  method CountDigits(res: nat) returns (size: nat)
    ensures size == |Format(res, 10)|
  {
    size := 0;
    var t := res;
    while t / 10 != 0
      invariant 0 <= size && |Format(res, 10)| == |Format(t, 10)| + size
    {
      t := t / 10;
      size := size + 1;
    }
    size := size + 1;
  }

  /** One digit or more: a single digit is the whole text, otherwise the rest formats the quotient. */
  lemma LastDigit(n: nat, base: nat)
    requires 2 <= base <= 16
    ensures n % base < base
    ensures |Format(n, base)| == 1 ==> Format(n, base) == [Digit(n % base)]
    ensures |Format(n, base)| > 1 ==> Format(n, base) == Format(n / base, base) + [Digit(n % base)]
  {
    hide Digit;
    if n < base {
      Arith.DivMod(n, base, 0, n);
    }
  }

  /** The filling loop of `itoa`, from the last digit to the first. */
  method FillDigits(ret: array<char>, res: nat, size: nat)
    requires size == |Format(res, 10)| < ret.Length
    modifies ret
    ensures ret[..size] == Format(res, 10) && ret[size..] == old(ret[size..])
  {
    hide *;
    var t := res;
    var i := size - 1;
    while i >= 0
      invariant -1 <= i < size && ret[size..] == old(ret[size..])
      invariant i >= 0 ==> |Format(t, 10)| == i + 1
      invariant Format(res, 10) == (if i >= 0 then Format(t, 10) else []) + ret[i + 1..size]
      decreases i
    {
      LastDigit(t, 10);
      ghost var written := ret[i + 1..size];
      ret[i] := Digit(t % 10);
      assert ret[i..size] == [Digit(t % 10)] + written;
      assert i > 0 ==> Format(res, 10) == Format(t / 10, 10) + ([Digit(t % 10)] + written);
      t := t / 10;
      i := i - 1;
    }
    assert ret[0..size] == ret[..size];
  }

  /** `itoa` for a value that is not negative: the counting loop finds the number of digits that the
      filling loop then needs. */
  method Itoa(ret: array<char>, res: nat) returns (size: nat)
    requires ret.Length == 64 && res < 0x8000_0000
    modifies ret
    ensures 0 < size <= 10 && ret[size] == '\0'
    ensures Parse(ret[..size], 10) == res
    ensures ret[0] == '0' <==> res == 0
  {
    hide Parse, Format;
    DecimalText(res);
    size := CountDigits(res);
    ret[size] := '\0';
    FillDigits(ret, res, size);
    assert ret[size..][0] == '\0' && ret[..size][0] == ret[0];
  }
}
