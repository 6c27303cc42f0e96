/** Glyph names and characters from integer code points:
    `decimal_to_hex` (with its helper `_regularize`) and `decimal_to_char`. */
module Naming {
  import opened Types

  /** The default `prefix` of `decimal_to_hex`. */
  const DefaultPrefix: string := "uni"

  predicate IsHexDigit(c: char) {
    '0' <= c <= '9' || 'a' <= c <= 'f'
  }

  predicate IsHexString(s: string) {
    forall i :: 0 <= i < |s| ==> IsHexDigit(s[i])
  }

  function Pow16(k: nat): (p: nat)
    ensures p >= 1
  {
    if k == 0 then 1 else 16 * Pow16(k - 1)
  }

  /** The lowercase digit Python's `hex` uses for `d`. */
  function HexDigit(d: nat): (c: char)
    requires d < 16
    ensures IsHexDigit(c)
    ensures (c == '0') <==> d == 0
  {
    if d < 10 then ('0' as int + d) as char else ('a' as int + d - 10) as char
  }

  /** The value of one hex digit; the inverse of HexDigit. */
  function DigitValue(c: char): (d: nat)
    requires IsHexDigit(c)
    ensures d < 16 && HexDigit(d) == c
    ensures forall e :: 0 <= e < 16 && HexDigit(e) == c ==> e == d
  {
    if c <= '9' then c as int - '0' as int else c as int - 'a' as int + 10
  }

  /** `hex(n)[2:]` for n >= 0: the shortest lowercase hex numeral of n. */
  function HexDigits(n: nat): (s: string)
    ensures 1 <= |s| && IsHexString(s)
    ensures s[0] == '0' ==> n == 0 && |s| == 1
    ensures n < Pow16(|s|)
    ensures n > 0 ==> Pow16(|s| - 1) <= n
    decreases n
  {
    if n < 16 then [HexDigit(n)] else HexDigits(n / 16) + [HexDigit(n % 16)]
  }

  /** Python's `hex(n)`: "0x" and the digits, with a leading '-' for negative n. */
  function PyHex(n: int): string {
    if n < 0 then "-0x" + HexDigits(-n) else "0x" + HexDigits(n)
  }

  function Zeros(k: nat): (z: string)
    ensures |z| == k && forall i :: 0 <= i < k ==> z[i] == '0'
  {
    if k == 0 then [] else Zeros(k - 1) + "0"
  }

  /** Python's `str.zfill(width)`: pad with '0' on the left up to `width`
      characters, keeping a leading sign in front of the padding. */
  function ZFill(s: string, width: nat): (r: string)
    ensures |r| == if |s| >= width then |s| else width
    ensures |s| >= width ==> r == s
  {
    if |s| >= width then s
    else if s != [] && (s[0] == '+' || s[0] == '-') then [s[0]] + Zeros(width - |s|) + s[1..]
    else Zeros(width - |s|) + s
  }

  /** `_regularize(n, prefix)`: the glyph name `prefix + hex(n)[2:].zfill(4)`. */
  function Regularize(n: int, prefix: string): string
  {
    prefix + ZFill(PyHex(n)[2..], 4)
  }

  /** Reference reading of a hex numeral (most significant digit first). */
  function ParseHex(s: string): nat
    requires IsHexString(s)
  {
    if s == [] then 0 else 16 * ParseHex(s[..|s| - 1]) + DigitValue(s[|s| - 1])
  }

  lemma {:induction false} ParseHexDigits(n: nat)
    ensures ParseHex(HexDigits(n)) == n
    decreases n
  {
    if n >= 16 {
      var s := HexDigits(n);
      assert s[..|s| - 1] == HexDigits(n / 16);
      ParseHexDigits(n / 16);
    }
  }

  lemma {:induction false} ParseHexZeros(k: nat)
    ensures ParseHex(Zeros(k)) == 0
  {
    if k > 0 {
      assert Zeros(k)[..k - 1] == Zeros(k - 1);
      ParseHexZeros(k - 1);
    }
  }

  /** Leading zeros do not change the value of a numeral. */
  lemma {:induction false} ParseHexLeadingZeros(k: nat, s: string)
    requires IsHexString(s)
    ensures IsHexString(Zeros(k) + s) && ParseHex(Zeros(k) + s) == ParseHex(s)
    decreases |s|
  {
    var t := Zeros(k) + s;
    if s == [] {
      assert t == Zeros(k);
      ParseHexZeros(k);
    } else {
      assert t[..|t| - 1] == Zeros(k) + s[..|s| - 1];
      ParseHexLeadingZeros(k, s[..|s| - 1]);
    }
  }

  /** The name of a code point n >= 0 is the prefix followed by the lowercase
      hex digits of n, zero-padded to max(4, number of digits), and reading
      the part after the prefix as hex gives n back. */
  lemma RegularizeSpec(n: nat, prefix: string)
    ensures var name, d := Regularize(n, prefix), HexDigits(n);
      && |name| == |prefix| + (if |d| < 4 then 4 else |d|)
      && name[..|prefix|] == prefix
      && name[|prefix|..] == Zeros(if |d| < 4 then 4 - |d| else 0) + d
      && IsHexString(name[|prefix|..])
      && ParseHex(name[|prefix|..]) == n
  {
    var name, d := Regularize(n, prefix), HexDigits(n);
    assert PyHex(n)[2..] == d;
    var pad := if |d| < 4 then 4 - |d| else 0;
    assert d[0] != '+' && d[0] != '-';
    assert name[|prefix|..] == Zeros(pad) + d;
    ParseHexLeadingZeros(pad, d);
    ParseHexDigits(n);
  }

  /** Code point 0 is named `prefix + "0000"`. */
  lemma RegularizeZero(prefix: string)
    ensures Regularize(0, prefix) == prefix + "0000"
  {
    assert HexDigits(0) == "0";
    assert Zeros(3) == "000";
  }

  /** For a negative argument `hex` yields "-0x...", so the part of the name
      after the prefix holds the letter 'x' and is not a hex numeral. */
  lemma RegularizeNegative(m: int, prefix: string)
    requires m < 0
    ensures !IsHexString(Regularize(m, prefix)[|prefix|..])
  {
    var t := PyHex(m)[2..];
    assert t[0] == 'x';
    var tail := Regularize(m, prefix)[|prefix|..];
    assert tail == ZFill(t, 4);
    var k := if |t| >= 4 then 0 else 4 - |t|;
    assert tail[k] == 'x';
  }

  /** Distinct non-negative code points get distinct names, and a negative
      argument (for which `hex` yields "-0x...") never produces the name of a
      non-negative one. */
  lemma RegularizeInjective(n: nat, m: int, prefix: string)
    requires Regularize(n, prefix) == Regularize(m, prefix)
    ensures m == n
  {
    RegularizeSpec(n, prefix);
    if m < 0 {
      RegularizeNegative(m, prefix);
      assert false;
    } else {
      RegularizeSpec(m, prefix);
    }
  }

  /** `decimal_to_hex` on a list: every code point named, in order. */
  function DecimalToHex(codes: seq<int>, prefix: string): (names: seq<string>)
    ensures |names| == |codes|
    ensures forall i :: 0 <= i < |codes| ==> names[i] == Regularize(codes[i], prefix)
  {
    seq(|codes|, i requires 0 <= i < |codes| => Regularize(codes[i], prefix))
  }

  /** `decimal_to_hex` on a single value: it is wrapped in a one-element list
      and the only name is taken back out. */
  function DecimalToHexScalar(code: int, prefix: string): (name: string)
    ensures name == Regularize(code, prefix)
  {
    DecimalToHex([code], prefix)[0]
  }

  /** The default prefix names 'a' (0x61) "uni0061". */
  lemma DefaultName0x61()
    ensures DecimalToHexScalar(0x61, DefaultPrefix) == "uni0061"
  {
    assert HexDigits(6) == "6";
    assert HexDigits(0x61) == "61";
    assert Zeros(2) == "00";
  }

  /** Reading back every name of a list yields the list, position by position,
      and distinct code points get distinct names. */
  lemma DecimalToHexRoundTrip(codes: seq<nat>, prefix: string, i: nat, j: nat)
    requires i < |codes| && j < |codes|
    ensures var names := DecimalToHex(codes, prefix);
      && names[i][..|prefix|] == prefix
      && IsHexString(names[i][|prefix|..])
      && ParseHex(names[i][|prefix|..]) == codes[i]
      && (names[i] == names[j] <==> codes[i] == codes[j])
  {
    var names := DecimalToHex(codes, prefix);
    RegularizeSpec(codes[i], prefix);
    if names[i] == names[j] {
      RegularizeInjective(codes[i], codes[j], prefix);
    }
  }

  /** Python's `chr`: raises ValueError outside range(0x110000). */
  function Chr(x: int): (r: Result<CodePoint>)
    ensures r.Ok? <==> InCodeSpace(x)
    ensures r.Ok? ==> r.value as int == x
  {
    if InCodeSpace(x) then Ok(x as CodePoint) else Err(ChrOutOfRange)
  }

  /** `decimal_to_char` on a list: `[chr(x) for x in codes]`, which raises at
      the first code point outside the range of `chr`. */
  function DecimalToChar(codes: seq<int>): (r: Result<seq<CodePoint>>)
    ensures r.Ok? <==> forall i :: 0 <= i < |codes| ==> InCodeSpace(codes[i])
    ensures r.Ok? ==> |r.value| == |codes|
    ensures r.Ok? ==> forall i :: 0 <= i < |codes| ==> r.value[i] as int == codes[i]
  {
    if codes == [] then Ok([])
    else
      match Chr(codes[0])
      case Err(e) => Err(e)
      case Ok(c) =>
        match DecimalToChar(codes[1..])
        case Err(e) => Err(e)
        case Ok(cs) => Ok([c] + cs)
  }

  /** `decimal_to_char` on a single value: one character of that code point. */
  function DecimalToCharScalar(code: int): (r: Result<CodePoint>)
    ensures r.Ok? <==> InCodeSpace(code)
    ensures r.Ok? ==> r.value as int == code
  {
    match DecimalToChar([code])
    case Err(e) => Err(e)
    case Ok(cs) => Ok(cs[0])
  }
}
