/** The workspace fingerprint written into the hidden `workspace_hash` widget:
    a 32-bit string hash over the UTF-16 code units of the serialised workspace,
    rendered the way JavaScript's `Number.prototype.toString(16)` renders it.
    Every intermediate value of the source's loop is an integer far below 2^53,
    so the double arithmetic is exact and mathematical integers model it. */
module Fingerprint {
  import opened JsValues

  const Modulus: int := 0x1_0000_0000

  type Int32 = x: int | -0x8000_0000 <= x < 0x8000_0000
  type CodeUnit = c: int | 0 <= c < 0x1_0000

  /** ECMAScript ToInt32 on an integral number: the representative of `x`
      modulo 2^32 in [-2^31, 2^31). */
  function ToInt32(x: int): (r: Int32)
    ensures (x - r) % Modulus == 0
  {
    var m := x % Modulus;
    if m < 0x8000_0000 then m else m - Modulus
  }

  /** ToInt32 only depends on the residue modulo 2^32. */
  lemma SameResidue(x: int, y: int)
    requires (x - y) % Modulus == 0
    ensures ToInt32(x) == ToInt32(y)
  {
    var k := (x - y) / Modulus;
    assert x == y + k * Modulus;
    assert x % Modulus == y % Modulus;
  }

  /** A multiple of 2^32 stays one when scaled. */
  lemma ScaledMultiple(a: int, f: int)
    requires a % Modulus == 0
    ensures (f * a) % Modulus == 0
  {
    var q := a / Modulus;
    assert a == q * Modulus;
    assert f * a == (f * q) * Modulus;
  }

  // ---------------------------------------------------------------------
  // The hash
  // ---------------------------------------------------------------------

  /** One step of the reference recurrence `h := 31*h + c`, wrapped to 32 bits
      (the recurrence of Java's `String.hashCode`). */
  function HashStep(h: Int32, c: CodeUnit): Int32 {
    ToInt32(31 * h + c)
  }

  /** The reference hash: the recurrence folded from 0 over the code units. */
  function StringHash(s: seq<CodeUnit>): Int32
    decreases |s|
  {
    if s == [] then 0 else HashStep(StringHash(s[..|s| - 1]), s[|s| - 1])
  }

  /** `h << 5`: ToInt32 of the left operand, shifted, truncated to 32 bits. */
  function ShiftLeft5(h: Int32): Int32 {
    ToInt32(h * 32)
  }

  /** The loop body as the source writes it: `hash = ((hash << 5) - hash) + char`,
      then `hash = hash & hash`, where `x & x` is ToInt32(x). It is the
      reference step, even though the shift already wraps. */
  function ShiftSubtractStep(h: Int32, c: CodeUnit): (r: Int32)
    ensures r == HashStep(h, c)
  {
    var t := ShiftLeft5(h) - h + c;
    assert t - (31 * h + c) == ShiftLeft5(h) - h * 32;
    SameResidue(t, 31 * h + c);
    ToInt32(t)
  }

  /** The hash loop of `refreshWorkspaceData`. */
  method Hash(str: seq<CodeUnit>) returns (hash: Int32)
    ensures hash == StringHash(str)
  {
    hash := 0;
    var i := 0;
    while i < |str|
      invariant 0 <= i <= |str|
      invariant hash == StringHash(str[..i])
    {
      var unit := str[i];
      hash := ShiftSubtractStep(hash, unit);
      assert str[..i + 1][..i] == str[..i];
      i := i + 1;
    }
    assert str[..|str|] == str;
  }

  function Pow31(n: nat): nat {
    if n == 0 then 1 else 31 * Pow31(n - 1)
  }

  /** The closed form `s[0]*31^(n-1) + s[1]*31^(n-2) + ... + s[n-1]`, unwrapped. */
  function WeightedSum(s: seq<CodeUnit>): nat
    decreases |s|
  {
    if s == [] then 0 else s[0] * Pow31(|s| - 1) + WeightedSum(s[1..])
  }

  lemma {:induction false} WeightedSumAppend(s: seq<CodeUnit>, c: CodeUnit)
    ensures WeightedSum(s + [c]) == 31 * WeightedSum(s) + c
    decreases |s|
  {
    if s == [] {
      assert [] + [c] == [c];
      assert [c][1..] == [];
    } else {
      var t := s + [c];
      assert t[0] == s[0] && t[1..] == s[1..] + [c];
      WeightedSumAppend(s[1..], c);
      assert Pow31(|t| - 1) == 31 * Pow31(|s| - 1);
      calc {
        WeightedSum(t);
        s[0] * Pow31(|t| - 1) + WeightedSum(s[1..] + [c]);
        s[0] * (31 * Pow31(|s| - 1)) + 31 * WeightedSum(s[1..]) + c;
        { assert s[0] * (31 * Pow31(|s| - 1)) == 31 * (s[0] * Pow31(|s| - 1)); }
        31 * (s[0] * Pow31(|s| - 1) + WeightedSum(s[1..])) + c;
        31 * WeightedSum(s) + c;
      }
    }
  }

  /** Wrapping before a step does not change the wrapped result of the step. */
  lemma WrapThenStep(w: int, c: CodeUnit)
    ensures HashStep(ToInt32(w), c) == ToInt32(31 * w + c)
  {
    ScaledMultiple(w - ToInt32(w), 31);
    assert (31 * w + c) - (31 * ToInt32(w) + c) == 31 * (w - ToInt32(w));
    SameResidue(31 * w + c, 31 * ToInt32(w) + c);
  }

  /** Wrapping after every step gives the same result as computing the closed
      form exactly and wrapping once: the hash is the polynomial modulo 2^32. */
  lemma {:induction false} HashIsWrappedWeightedSum(s: seq<CodeUnit>)
    ensures StringHash(s) == ToInt32(WeightedSum(s))
    decreases |s|
  {
    if s != [] {
      var p, c := s[..|s| - 1], s[|s| - 1];
      assert s == p + [c];
      HashIsWrappedWeightedSum(p);
      WeightedSumAppend(p, c);
      WrapThenStep(WeightedSum(p), c);
    }
  }

  /** The empty serialisation hashes to 0, and a single code unit to itself. */
  lemma HashOfShortStrings(c: CodeUnit)
    ensures StringHash([]) == 0
    ensures StringHash([c]) == c
  {
    assert [c][..0] == [];
  }

  // ---------------------------------------------------------------------
  // Rendering with toString(16)
  // ---------------------------------------------------------------------

  predicate IsHexDigit(ch: char) {
    '0' <= ch <= '9' || 'a' <= ch <= 'f'
  }

  function HexDigit(d: nat): (ch: char)
    requires d < 16
    ensures IsHexDigit(ch)
  {
    if d < 10 then ('0' as int + d) as char else ('a' as int + d - 10) as char
  }

  function DigitValue(ch: char): (d: nat)
    requires IsHexDigit(ch)
    ensures d < 16 && HexDigit(d) == ch
  {
    if ch <= '9' then ch as int - '0' as int else ch as int - 'a' as int + 10
  }

  /** Lowercase hexadecimal of a non-negative integer, without leading zeros. */
  function Hex(n: nat): (r: string)
    ensures |r| >= 1
    ensures forall i :: 0 <= i < |r| ==> IsHexDigit(r[i])
    ensures r[0] == '0' <==> n == 0
    ensures n == 0 ==> r == "0"
    decreases n
  {
    if n < 16 then [HexDigit(n)] else Hex(n / 16) + [HexDigit(n % 16)]
  }

  /** `h.toString(16)`: the hexadecimal of |h|, preceded by `-` exactly when h is negative. */
  function ToString16(h: int): (r: string)
    ensures IsRadix16(r)
    ensures r[0] == '-' <==> h < 0
  {
    if h < 0 then "-" + Hex(-h) else Hex(h)
  }

  /** Reading hexadecimal digits back, most significant first. */
  function ParseHex(s: string): nat
    requires forall i :: 0 <= i < |s| ==> IsHexDigit(s[i])
    decreases |s|
  {
    if s == [] then 0 else 16 * ParseHex(s[..|s| - 1]) + DigitValue(s[|s| - 1])
  }

  /** An optional `-` followed by at least one hexadecimal digit. */
  predicate IsRadix16(s: string) {
    && |s| >= 1
    && (s[0] == '-' ==> |s| >= 2)
    && forall i :: (if s[0] == '-' then 1 else 0) <= i < |s| ==> IsHexDigit(s[i])
  }

  function ParseRadix16(s: string): int
    requires IsRadix16(s)
  {
    var magnitude: int := if s[0] == '-' then ParseHex(s[1..]) else ParseHex(s);
    if s[0] == '-' then -magnitude else magnitude
  }

  lemma {:induction false} HexRoundTrip(n: nat)
    ensures ParseHex(Hex(n)) == n
    decreases n
  {
    var d := HexDigit(n % 16);
    assert DigitValue(d) == n % 16 by {
      assert HexDigit(DigitValue(d)) == d;
    }
    if n < 16 {
      assert [d][..0] == [];
    } else {
      var r := Hex(n / 16) + [d];
      assert r[..|r| - 1] == Hex(n / 16);
      HexRoundTrip(n / 16);
    }
  }

  /** Parsing what toString(16) rendered gives back the number: the rendering is injective. */
  lemma ToString16RoundTrip(h: int)
    ensures ParseRadix16(ToString16(h)) == h
  {
    if h < 0 {
      assert ToString16(h)[1..] == Hex(-h);
      HexRoundTrip(-h);
    } else {
      HexRoundTrip(h);
    }
  }

  function Pow16(k: nat): nat {
    if k == 0 then 1 else 16 * Pow16(k - 1)
  }

  /** Eight hexadecimal digits span exactly the 32-bit range. */
  lemma EightDigitsSpanModulus()
    ensures Pow16(8) == Modulus
  {
  }

  lemma {:induction false} HexLength(n: nat, k: nat)
    requires 1 <= k && n < Pow16(k)
    ensures |Hex(n)| <= k
    decreases k
  {
    if n >= 16 {
      assert k >= 2;
      HexLength(n / 16, k - 1);
    }
  }

  /** A 32-bit value renders in at most eight digits, plus the sign. */
  lemma ToString16OfInt32Length(h: Int32)
    ensures |ToString16(h)| <= 9
  {
    EightDigitsSpanModulus();
    var m: int := h;
    if m < 0 {
      HexLength(-m, 8);
    } else {
      HexLength(m, 8);
    }
  }

  /** The string written into `workspace_hash`: empty when the backend returned no
      workspace, otherwise the fingerprint of the serialised workspace in radix 16,
      one to nine characters long and never empty. */
  function HashString(serialised: Option<seq<CodeUnit>>): (r: string)
    ensures r == "" <==> serialised.None?
    ensures serialised.Some? ==> 1 <= |r| <= 9
    ensures serialised.Some? ==> IsRadix16(r) && ParseRadix16(r) == StringHash(serialised.value)
  {
    match serialised
    case None => ""
    case Some(s) =>
      var h := StringHash(s);
      ToString16RoundTrip(h);
      ToString16OfInt32Length(h);
      ToString16(h)
  }
}
