/**
 * Text renderings of numbers and bytes used by the trace format:
 * Python's `hex(n)` without its `0x` prefix, `str(n)` / `"{0}".format(n)`
 * for a non-negative integer, and `binascii.hexlify` for a byte string.
 */
module Hex {

  newtype byte = x: int | 0 <= x < 256

  /** The lowercase digit character for a digit value below 16. */
  function DigitChar(d: nat): (c: char)
    requires d < 16
    ensures '0' <= c <= '9' || 'a' <= c <= 'f'
  {
    if d < 10 then ('0' as int + d) as char else ('a' as int + d - 10) as char
  }

  /** The value of a lowercase digit character; 16 for any other character. */
  function DigitValue(c: char): (d: nat)
    ensures d <= 16
    ensures d < 16 <==> '0' <= c <= '9' || 'a' <= c <= 'f'
  {
    if '0' <= c <= '9' then c as int - '0' as int
    else if 'a' <= c <= 'f' then c as int - 'a' as int + 10
    else 16
  }

  lemma DigitRoundTrip(d: nat)
    requires d < 16
    ensures DigitValue(DigitChar(d)) == d
  {
  }

  /** A string all of whose characters are digits of `base`. */
  predicate IsNumeral(s: string, base: nat) {
    forall i :: 0 <= i < |s| ==> DigitValue(s[i]) < base
  }

  /**
   * The shortest digit string of `n` in `base`, with no leading zero:
   * how Python renders an integer in decimal or (after `0x`) in hex.
   */
  function Digits(n: nat, base: nat): (r: string)
    requires 2 <= base <= 16
    ensures |r| >= 1
    decreases n
  {
    if n < base then [DigitChar(n)] else Digits(n / base, base) + [DigitChar(n % base)]
  }

  /** The number a digit string denotes in `base`. */
  function ValueOf(s: string, base: nat): nat
    requires IsNumeral(s, base)
  {
    if s == [] then 0 else ValueOf(s[..|s| - 1], base) * base + DigitValue(s[|s| - 1])
  }

  lemma DivFacts(n: nat, base: nat)
    requires 2 <= base && n >= base
    ensures n == (n / base) * base + n % base
    ensures 1 <= n / base < n
  {
  }

  /**
   * `Digits` is a faithful, unpadded rendering: every character is a digit
   * of the base, it denotes `n`, and it starts with `0` only when `n` is 0.
   */
  lemma {:induction false} DigitsDenote(n: nat, base: nat)
    requires 2 <= base <= 16
    ensures IsNumeral(Digits(n, base), base)
    ensures ValueOf(Digits(n, base), base) == n
    ensures Digits(n, base)[0] == '0' <==> n == 0
    decreases n
  {
    var r := Digits(n, base);
    if n < base {
      DigitRoundTrip(n);
      assert r[..|r| - 1] == [];
    } else {
      var q, d := n / base, n % base;
      var init := Digits(q, base);
      DivFacts(n, base);
      DigitsDenote(q, base);
      DigitRoundTrip(d);
      assert r == init + [DigitChar(d)];
      assert r[..|r| - 1] == init;
      assert IsNumeral(r, base) by {
        forall i | 0 <= i < |r| ensures DigitValue(r[i]) < base {
          if i < |init| { assert r[i] == init[i]; }
        }
      }
      assert ValueOf(r, base) == q * base + d;
      assert r[0] == init[0];
      assert q > 0;
    }
  }

  /** Python's `hex(n)` with the `0x` prefix split off (for a short integer). */
  function ToHex(n: nat): string {
    Digits(n, 16)
  }

  /** Python's `"{0}".format(n)` for a non-negative integer. */
  function Decimal(n: nat): string {
    Digits(n, 10)
  }

  function Pow2(k: nat): (p: nat)
    ensures p >= 1
  {
    if k == 0 then 1 else 2 * Pow2(k - 1)
  }

  /**
   * The keep field for a word carrying `count` bytes:
   * the hex of 2^count - 1, neither prefixed nor zero-padded.
   */
  function MaskHex(count: nat): string {
    ToHex(Pow2(count) - 1)
  }

  function Repeat(c: char, n: nat): (r: string)
    ensures |r| == n && forall i :: 0 <= i < n ==> r[i] == c
  {
    seq(n, _ => c)
  }

  /** The leading digit of a mask whose bit count leaves `rem` bits over a multiple of 4. */
  function LeadDigit(rem: nat): string
    requires rem < 4
  {
    if rem == 0 then "" else if rem == 1 then "1" else if rem == 2 then "3" else "7"
  }

  /**
   * The shape of a keep mask: one `f` per four valid bytes, preceded by
   * `1`, `3` or `7` for the one, two or three bytes left over.
   */
  lemma {:induction false} MaskShape(count: nat)
    requires count >= 1
    ensures MaskHex(count) == LeadDigit(count % 4) + Repeat('f', count / 4)
    decreases count
  {
    if count <= 4 {
      assert Pow2(1) == 2 && Pow2(2) == 4 && Pow2(3) == 8 && Pow2(4) == 16;
      if count == 4 {
        assert Repeat('f', 1) == "f";
      }
    } else {
      var p := Pow2(count - 4);
      assert Pow2(count) == 16 * p by {
        assert Pow2(count) == 2 * Pow2(count - 1) == 4 * Pow2(count - 2) == 8 * Pow2(count - 3) == 16 * p;
      }
      var m := 16 * p - 1;
      assert m == 16 * (p - 1) + 15;
      assert m / 16 == p - 1 && m % 16 == 15;
      MaskShape(count - 4);
      assert (count - 4) % 4 == count % 4 && (count - 4) / 4 + 1 == count / 4;
      assert Repeat('f', count / 4) == Repeat('f', (count - 4) / 4) + "f";
    }
  }

  /** Examples for a 32-bit bus: a full word, a 1-byte tail and a 3-byte tail. */
  lemma MaskExamples()
    ensures MaskHex(4) == "f" && MaskHex(1) == "1" && MaskHex(2) == "3" && MaskHex(3) == "7"
    ensures MaskHex(8) == "ff"
  {
    MaskShape(4);
    MaskShape(1);
    MaskShape(2);
    MaskShape(3);
    MaskShape(8);
    assert Repeat('f', 2) == "ff";
  }

  /** `binascii.hexlify` of one byte: high nibble, then low nibble. */
  function HexPair(b: byte): (r: string)
    ensures |r| == 2
  {
    [DigitChar(b as int / 16), DigitChar(b as int % 16)]
  }

  /** `binascii.hexlify`: two lowercase hex digits per byte, in byte order. */
  function Hexlify(bs: seq<byte>): (r: string)
    ensures |r| == 2 * |bs|
  {
    if bs == [] then [] else HexPair(bs[0]) + Hexlify(bs[1..])
  }

  lemma {:induction false} HexlifyAppend(a: seq<byte>, b: seq<byte>)
    ensures Hexlify(a + b) == Hexlify(a) + Hexlify(b)
    decreases |a|
  {
    if a != [] {
      assert (a + b)[1..] == a[1..] + b;
      HexlifyAppend(a[1..], b);
    } else {
      assert a + b == b;
    }
  }

  /** Byte `i` of the input becomes characters `2i` and `2i+1` of the output. */
  lemma {:induction false} HexlifyAt(bs: seq<byte>, i: nat)
    requires i < |bs|
    ensures Hexlify(bs)[2 * i..2 * i + 2] == HexPair(bs[i])
    decreases i
  {
    if i > 0 {
      HexlifyAt(bs[1..], i - 1);
      assert Hexlify(bs)[2..] == Hexlify(bs[1..]);
    }
  }

  /** The inverse of `HexPair`, reading two hex digits back into a byte. */
  function PairValue(s: string): (v: nat)
    requires |s| == 2 && IsNumeral(s, 16)
    ensures v < 256
  {
    DigitValue(s[0]) * 16 + DigitValue(s[1])
  }

  /** `binascii.unhexlify` for well-formed input: a reference inverse of `Hexlify`. */
  function Unhexlify(s: string): (bs: seq<byte>)
    requires |s| % 2 == 0 && IsNumeral(s, 16)
    decreases |s|
  {
    if s == [] then [] else [PairValue(s[..2]) as byte] + Unhexlify(s[2..])
  }

  /** Hexlify is lossless: reading its output back gives the original bytes. */
  lemma {:induction false} HexlifyRoundTrip(bs: seq<byte>)
    ensures IsNumeral(Hexlify(bs), 16)
    ensures Unhexlify(Hexlify(bs)) == bs
    decreases |bs|
  {
    if bs != [] {
      HexlifyRoundTrip(bs[1..]);
      var b := bs[0] as int;
      DigitRoundTrip(b / 16);
      DigitRoundTrip(b % 16);
      var h := Hexlify(bs);
      assert h[..2] == HexPair(bs[0]) && h[2..] == Hexlify(bs[1..]);
    }
  }
}
