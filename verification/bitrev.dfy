/**
 Bit reversal of a byte, as the address counters compute it: the byte is
 printed as eight binary digits (most significant first), the digit string
 is reversed, and the result is read back as a binary number.
 */
module BitReverse {

  /** 2^n. */
  function Pow2(n: nat): (r: nat)
    ensures r > 0
  {
    if n == 0 then 1 else 2 * Pow2(n - 1)
  }

  /** The binary digit character for bit `b` (0 or 1). */
  function DigitChar(b: nat): char
    requires b < 2
  {
    if b == 1 then '1' else '0'
  }

  /** The value of a binary digit character. */
  function BitValue(c: char): nat {
    if c == '1' then 1 else 0
  }

  /** True when every character is a binary digit. */
  predicate IsBinary(s: string) {
    forall k :: 0 <= k < |s| ==> s[k] == '0' || s[k] == '1'
  }

  /** The `n` low bits of `v` as binary digits, most significant first and
      zero-padded to width `n` (the format `{:0nb}` on a value below 2^n). */
  function FormatBinary(v: nat, n: nat): (s: string)
    ensures |s| == n && IsBinary(s)
  {
    if n == 0 then [] else FormatBinary(v / 2, n - 1) + [DigitChar(v % 2)]
  }

  /** The number a string of binary digits denotes, most significant first
      (`int(s, 2)`). */
  function ParseBinary(s: string): nat {
    if |s| == 0 then 0 else 2 * ParseBinary(s[..|s| - 1]) + BitValue(s[|s| - 1])
  }

  /** The characters of `s` in the opposite order (`s[::-1]`). */
  function Reverse(s: string): (r: string)
    ensures |r| == |s|
    ensures forall k :: 0 <= k < |s| ==> r[k] == s[|s| - 1 - k]
  {
    if |s| == 0 then [] else [s[|s| - 1]] + Reverse(s[..|s| - 1])
  }

  /** The byte `v` with its bit order reversed: bit 7 becomes bit 0 and so on. */
  function Rev8(v: nat): nat
    requires v < 256
  {
    ParseBinary(Reverse(FormatBinary(v, 8)))
  }

  /** An independent arithmetic definition of reversing the `n` low bits of `v`:
      bit 0 of `v` lands at bit `n - 1` of the result, and the remaining bits
      are reversed below it. */
  function ReverseBits(v: nat, n: nat): nat {
    if n == 0 then 0 else (v % 2) * Pow2(n - 1) + ReverseBits(v / 2, n - 1)
  }

  /** Reading back printed digits gives the value again. */
  lemma {:induction false} ParseFormat(v: nat, n: nat)
    requires v < Pow2(n)
    ensures ParseBinary(FormatBinary(v, n)) == v
  {
    if n > 0 {
      var s := FormatBinary(v, n);
      assert s[..|s| - 1] == FormatBinary(v / 2, n - 1);
      assert BitValue(s[|s| - 1]) == v % 2;
      assert v / 2 < Pow2(n - 1);
      ParseFormat(v / 2, n - 1);
    }
  }

  /** A binary string denotes a value that fits in as many bits as it has digits. */
  lemma {:induction false} ParseBound(s: string)
    ensures ParseBinary(s) < Pow2(|s|)
  {
    if |s| > 0 {
      ParseBound(s[..|s| - 1]);
    }
  }

  /** Printing a parsed binary string at its own width gives the string again. */
  lemma {:induction false} FormatParse(s: string)
    requires IsBinary(s)
    ensures FormatBinary(ParseBinary(s), |s|) == s
  {
    if |s| > 0 {
      var init := s[..|s| - 1];
      var v := ParseBinary(s);
      assert v / 2 == ParseBinary(init);
      assert v % 2 == BitValue(s[|s| - 1]);
      FormatParse(init);
      assert s == init + [s[|s| - 1]];
    }
  }

  /** Reversing twice restores the string. */
  lemma ReverseReverse(s: string)
    ensures Reverse(Reverse(s)) == s
  {
  }

  /** The reversed byte is again a byte. */
  lemma Rev8Bound(v: nat)
    requires v < 256
    ensures Rev8(v) < 256
  {
    ParseBound(Reverse(FormatBinary(v, 8)));
  }

  /** Reversing the bits of a byte twice gives the byte back. */
  lemma Rev8Involution(v: nat)
    requires v < 256
    ensures Rev8(v) < 256 && Rev8(Rev8(v)) == v
  {
    var s := FormatBinary(v, 8);
    var r := Reverse(s);
    Rev8Bound(v);
    assert IsBinary(r);
    FormatParse(r);
    ReverseReverse(s);
    ParseFormat(v, 8);
  }

  /** Reading a string backwards weights digit `k` by 2^k. */
  function ParseLsbFirst(s: string): nat {
    if |s| == 0 then 0 else BitValue(s[0]) + 2 * ParseLsbFirst(s[1..])
  }

  /** Appending a digit adds it at the weight of the new top position. */
  lemma {:induction false} ParseLsbFirstSnoc(s: string, c: char)
    ensures ParseLsbFirst(s + [c]) == ParseLsbFirst(s) + BitValue(c) * Pow2(|s|)
  {
    if |s| > 0 {
      assert (s + [c])[1..] == s[1..] + [c];
      ParseLsbFirstSnoc(s[1..], c);
    }
  }

  /** Reading a reversed string most significant first is reading the
      original least significant first. */
  lemma {:induction false} ParseReverse(s: string)
    ensures ParseBinary(Reverse(s)) == ParseLsbFirst(s)
  {
    if |s| > 0 {
      var r := Reverse(s);
      assert r[..|r| - 1] == Reverse(s[1..]);
      ParseReverse(s[1..]);
    }
  }

  /** Reading the printed digits of `v` least significant first reverses its `n` low bits. */
  lemma {:induction false} ParseLsbFirstFormat(v: nat, n: nat)
    ensures ParseLsbFirst(FormatBinary(v, n)) == ReverseBits(v, n)
  {
    if n > 0 {
      ParseLsbFirstFormat(v / 2, n - 1);
      ParseLsbFirstSnoc(FormatBinary(v / 2, n - 1), DigitChar(v % 2));
    }
  }

  /** The string-based reversal agrees with the arithmetic one. */
  lemma Rev8IsReverseBits(v: nat)
    requires v < 256
    ensures Rev8(v) == ReverseBits(v, 8)
  {
    ParseReverse(FormatBinary(v, 8));
    ParseLsbFirstFormat(v, 8);
  }
}
