/**
 * Bytes, hexadecimal digits and the two Python string built-ins the packet
 * construction relies on: `bytes.fromhex` (FromHex) and repetition `s * n`
 * (Repeat).
 */
module Hex {

  newtype byte = x: int | 0 <= x < 256

  predicate IsHexDigit(c: char) {
    '0' <= c <= '9' || 'a' <= c <= 'f' || 'A' <= c <= 'F'
  }

  predicate IsHexString(s: string) {
    forall i :: 0 <= i < |s| ==> IsHexDigit(s[i])
  }

  /** The value of one hexadecimal digit, either case. */
  function HexValue(c: char): (v: nat)
    requires IsHexDigit(c)
    ensures v < 16
  {
    if '0' <= c <= '9' then c as nat - '0' as nat
    else if 'a' <= c <= 'f' then c as nat - 'a' as nat + 10
    else c as nat - 'A' as nat + 10
  }

  /** ASCII lower-casing, the identity on every other character. */
  function ToLower(c: char): char {
    if 'A' <= c <= 'Z' then (c as int - 'A' as int + 'a' as int) as char else c
  }

  /** Every character of `s` lower-cased. */
  function LowerAll(s: string): string
  {
    seq(|s|, i requires 0 <= i < |s| => ToLower(s[i]))
  }

  /** A digit and its lower-case form have the same value. */
  lemma HexValueIgnoresCase(c: char)
    requires IsHexDigit(c)
    ensures IsHexDigit(ToLower(c)) && HexValue(ToLower(c)) == HexValue(c)
  {
  }

  /**
   * `bytes.fromhex(s)` on a string of hexadecimal digit pairs: byte i is the
   * value of the pair at positions 2i and 2i+1, high digit first.
   */
  function FromHex(s: string): (r: seq<byte>)
    requires |s| % 2 == 0 && IsHexString(s)
    ensures |r| == |s| / 2
    decreases |s|
  {
    if s == [] then []
    else [PairValue(s[0], s[1])] + FromHex(s[2..])
  }

  /** The byte a high and a low hexadecimal digit stand for. */
  function PairValue(hi: char, lo: char): byte
    requires IsHexDigit(hi) && IsHexDigit(lo)
  {
    (16 * HexValue(hi) + HexValue(lo)) as byte
  }

  /** Byte `i` of the decoding is the value of the digit pair at 2i and 2i+1. */
  lemma {:induction false} FromHexAt(s: string, i: nat)
    requires |s| % 2 == 0 && IsHexString(s)
    requires i < |s| / 2
    ensures FromHex(s)[i] == PairValue(s[2 * i], s[2 * i + 1])
    decreases |s|
  {
    if i > 0 {
      FromHexAt(s[2..], i - 1);
    }
  }

  /** Decoding distributes over concatenation of whole digit pairs. */
  lemma {:induction false} FromHexAppend(a: string, b: string)
    requires |a| % 2 == 0 && IsHexString(a)
    requires |b| % 2 == 0 && IsHexString(b)
    ensures IsHexString(a + b) && |a + b| % 2 == 0
    ensures FromHex(a + b) == FromHex(a) + FromHex(b)
    decreases |a|
  {
    if a != [] {
      assert (a + b)[2..] == a[2..] + b;
      FromHexAppend(a[2..], b);
    } else {
      assert a + b == b;
    }
  }

  /** Decoding ignores the case of the hexadecimal letters. */
  lemma {:induction false} FromHexIgnoresCase(s: string)
    requires |s| % 2 == 0 && IsHexString(s)
    ensures |LowerAll(s)| % 2 == 0 && IsHexString(LowerAll(s))
    ensures FromHex(LowerAll(s)) == FromHex(s)
    decreases |s|
  {
    var t := LowerAll(s);
    forall i | 0 <= i < |s| ensures IsHexDigit(t[i]) {
      HexValueIgnoresCase(s[i]);
    }
    if s != [] {
      HexValueIgnoresCase(s[0]);
      HexValueIgnoresCase(s[1]);
      assert t[2..] == LowerAll(s[2..]);
      FromHexIgnoresCase(s[2..]);
    }
  }

  /** Python's `s * n`: `n` copies of `s`, one after the other. */
  function Repeat<T>(s: seq<T>, n: nat): (r: seq<T>)
    ensures |r| == n * |s|
  {
    if n == 0 then [] else s + Repeat(s, n - 1)
  }

  /** Element `j` of copy `k` of a repetition is element `j` of the original. */
  lemma {:induction false} RepeatAt<T>(s: seq<T>, n: nat, k: nat, j: nat)
    requires k < n && j < |s|
    ensures k * |s| + j < |Repeat(s, n)|
    ensures Repeat(s, n)[k * |s| + j] == s[j]
  {
    if k > 0 {
      RepeatAt(s, n - 1, k - 1, j);
      assert k * |s| + j == |s| + ((k - 1) * |s| + j);
    }
  }

  /** Repeating digits gives digits, and decoding a repetition repeats the decoding. */
  lemma {:induction false} FromHexRepeat(s: string, n: nat)
    requires |s| % 2 == 0 && IsHexString(s)
    ensures |Repeat(s, n)| % 2 == 0 && IsHexString(Repeat(s, n))
    ensures FromHex(Repeat(s, n)) == Repeat(FromHex(s), n)
  {
    if n > 0 {
      FromHexRepeat(s, n - 1);
      FromHexAppend(s, Repeat(s, n - 1));
    }
  }
}
