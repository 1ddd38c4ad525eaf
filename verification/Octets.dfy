/** Byte strings, big-endian lengths and hexadecimal text, as several formats share them. */
module Octets {
  import opened Wrappers

  type byte = b: int | 0 <= b < 256

  type Bytes = seq<byte>

  /** `(n as u32).to_be_bytes()`. */
  function Be32(n: nat): (b: Bytes)
    ensures |b| == 4
  {
    [n / 0x100_0000 % 256, n / 0x1_0000 % 256, n / 0x100 % 256, n % 256]
  }

  function FromBe32(b: Bytes): nat
    requires |b| == 4
  {
    (((b[0] as int) * 256 + b[1]) * 256 + b[2]) * 256 + b[3]
  }

  lemma Be32Reads(n: nat)
    requires n < 0x1_0000_0000
    ensures FromBe32(Be32(n)) == n
    ensures Be32(0x01020304) == [1, 2, 3, 4]
  {
    var a, b, c := n / 0x100, n / 0x1_0000, n / 0x100_0000;
    assert b == a / 0x100 && c == b / 0x100;
    assert n == a * 256 + n % 256 && a == b * 256 + a % 256 && b == c * 256 + b % 256;
  }

  // ---- Hex -------------------------------------------------------------------------

  function HexDigit(d: nat): (code: byte)
    requires d < 16
    ensures code < 128
  {
    if d < 10 then 0x30 + d else 0x57 + d
  }

  /** The value of a digit in either case, by its character code. */
  function HexValue(code: int): (d: Option<nat>)
    ensures d.Some? ==> d.value < 16
  {
    if 0x30 <= code <= 0x39 then Some(code - 0x30)
    else if 0x41 <= code <= 0x46 then Some(code - 0x37)
    else if 0x61 <= code <= 0x66 then Some(code - 0x57)
    else None
  }

  lemma DigitReads(d: nat)
    requires d < 16
    ensures HexValue(HexDigit(d)) == Some(d) && HexDigit(d) == "0123456789abcdef"[d] as int
  {
  }

  /** `hex::encode`: lowercase. */
  function Hex(b: Bytes): (t: Bytes)
    ensures |t| == 2 * |b| && forall i :: 0 <= i < |t| ==> t[i] < 128
  {
    if b == [] then [] else [HexDigit(b[0] / 16), HexDigit(b[0] % 16)] + Hex(b[1..])
  }

  /** `hex::decode`: pairs of digits in either case. */
  function FromHex(t: seq<int>): Option<Bytes> {
    if t == [] then Some([])
    else if |t| < 2 then None
    else
      match (HexValue(t[0]), HexValue(t[1]), FromHex(t[2..]))
      case (Some(h), Some(l), Some(rest)) => Some([16 * h + l] + rest)
      case _ => None
  }

  lemma {:induction false} HexInverse(b: Bytes)
    ensures FromHex(Hex(b)) == Some(b)
  {
    hide HexDigit, HexValue;
    if b != [] {
      HexInverse(b[1..]);
      DigitReads(b[0] / 16);
      DigitReads(b[0] % 16);
      assert Hex(b)[2..] == Hex(b[1..]);
      assert [16 * (b[0] / 16) + b[0] % 16] + b[1..] == b;
    }
  }

  /** Text is hex exactly when it is digits, evenly many; a pair gives the byte it spells. */
  lemma {:induction false} HexReadsExactlyWhen(t: seq<int>)
    ensures FromHex(t).Some? <==> |t| % 2 == 0 && forall i :: 0 <= i < |t| ==> HexValue(t[i]).Some?
    ensures FromHex(t).Some? ==> |t| == 2 * |FromHex(t).value|
    ensures FromHex(t).Some? ==> forall i :: 0 <= i < |FromHex(t).value| ==>
      FromHex(t).value[i] == 16 * HexValue(t[2 * i]).value + HexValue(t[2 * i + 1]).value
  {
    hide HexValue;
    if |t| >= 2 {
      var rest := t[2..];
      HexReadsExactlyWhen(rest);
      assert t == [t[0], t[1]] + rest;
      if FromHex(t).Some? {
        var b, r := FromHex(t).value, FromHex(rest).value;
        assert b == [b[0]] + r;
        forall i | 0 < i < |b| ensures b[i] == 16 * HexValue(t[2 * i]).value + HexValue(t[2 * i + 1]).value {
          assert b[i] == r[i - 1] && t[2 * i] == rest[2 * (i - 1)] && t[2 * i + 1] == rest[2 * (i - 1) + 1];
        }
      }
    }
  }

  /** A digit's value: the place of its character, in either case, among the sixteen. */
  lemma DigitValue(code: int, d: nat)
    requires d < 16
    ensures HexValue(code) == Some(d) <==>
            code == "0123456789abcdef"[d] as int || code == "0123456789ABCDEF"[d] as int
  {
  }

  /** Letters lowered, by character code. */
  function LowerCode(code: int): int {
    if 0x41 <= code <= 0x5A then code + 32 else code
  }

  function LowerCodes(t: seq<int>): seq<int> {
    seq(|t|, i requires 0 <= i < |t| => LowerCode(t[i]))
  }

  lemma SameDigit(a: int, b: int)
    requires HexValue(a).Some? && HexValue(b).Some?
    ensures HexValue(a) == HexValue(b) <==> LowerCode(a) == LowerCode(b)
  {
  }

  lemma SamePair(h: nat, l: nat, k: nat, m: nat)
    requires h < 16 && l < 16 && k < 16 && m < 16
    ensures 16 * h + l == 16 * k + m <==> h == k && l == m
  {
  }

  /** Two hex texts spell the same bytes exactly when they differ at most in case. */
  lemma {:induction false} SameBytesExactlyWhen(a: seq<int>, b: seq<int>)
    requires FromHex(a).Some? && FromHex(b).Some?
    ensures FromHex(a) == FromHex(b) <==> LowerCodes(a) == LowerCodes(b)
  {
    hide HexValue, LowerCode;
    if a == [] || b == [] {
      assert |LowerCodes(a)| == |a| && |LowerCodes(b)| == |b|;
    } else {
      SameBytesExactlyWhen(a[2..], b[2..]);
      SameDigit(a[0], b[0]);
      SameDigit(a[1], b[1]);
      SamePair(HexValue(a[0]).value, HexValue(a[1]).value, HexValue(b[0]).value, HexValue(b[1]).value);
      var x, y := FromHex(a).value, FromHex(b).value;
      assert x[1..] == FromHex(a[2..]).value && y[1..] == FromHex(b[2..]).value;
      assert x == y <==> x[0] == y[0] && x[1..] == y[1..] by { assert x == [x[0]] + x[1..] && y == [y[0]] + y[1..]; }
      LowerSplit(a);
      LowerSplit(b);
      var p, q := LowerCodes(a), LowerCodes(b);
      assert p == q <==> p[0] == q[0] && p[1] == q[1] && p[2..] == q[2..] by {
        assert p == [p[0], p[1]] + p[2..] && q == [q[0], q[1]] + q[2..];
      }
    }
  }

  lemma LowerSplit(t: seq<int>)
    requires |t| >= 2
    ensures |LowerCodes(t)| >= 2 && LowerCodes(t)[0] == LowerCode(t[0]) && LowerCodes(t)[1] == LowerCode(t[1])
    ensures LowerCodes(t)[2..] == LowerCodes(t[2..])
  {
  }
}
