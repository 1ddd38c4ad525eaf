/** URL-safe base64 without padding (section 5 of RFC 4648), as invite URIs carry it: a last
    group with set unused bits, or of one symbol, is refused. */
module Base64 {
  import opened Octets
  import opened Wrappers
  import opened Wire

  type sextet = n: int | 0 <= n < 64

  function Symbol(v: sextet): char {
    if v < 26 then 'A' + v as char
    else if v < 52 then 'a' + (v - 26) as char
    else if v < 62 then '0' + (v - 52) as char
    else if v == 62 then '-'
    else '_'
  }

  function Value(ch: char): Option<sextet> {
    if 'A' <= ch <= 'Z' then Some(ch as int - 'A' as int)
    else if 'a' <= ch <= 'z' then Some(ch as int - 'a' as int + 26)
    else if '0' <= ch <= '9' then Some(ch as int - '0' as int + 52)
    else if ch == '-' then Some(62)
    else if ch == '_' then Some(63)
    else None
  }

  function Encode(b: Bytes): string {
    if b == [] then []
    else if |b| == 1 then [Symbol(b[0] / 4), Symbol(b[0] % 4 * 16)]
    else if |b| == 2 then [Symbol(b[0] / 4), Symbol(b[0] % 4 * 16 + b[1] / 16), Symbol(b[1] % 16 * 4)]
    else Group(b[0], b[1], b[2]) + Encode(b[3..])
  }

  function Group(a: byte, b: byte, c: byte): (s: string)
    ensures |s| == 4
  {
    [Symbol(a / 4), Symbol(a % 4 * 16 + b / 16), Symbol(b % 16 * 4 + c / 64), Symbol(c % 64)]
  }

  function Decode(s: string): Option<Bytes> {
    if |s| < 4 then DecodeLast(s)
    else
      match (Value(s[0]), Value(s[1]), Value(s[2]), Value(s[3]), Decode(s[4..]))
      case (Some(w), Some(x), Some(y), Some(z), Some(rest)) => Some(Three(w, x, y, z) + rest)
      case _ => None
  }

  function Three(w: sextet, x: sextet, y: sextet, z: sextet): Bytes {
    [w * 4 + x / 16, x % 16 * 16 + y / 4, y % 4 * 64 + z]
  }

  function DecodeLast(s: string): Option<Bytes>
    requires |s| < 4
  {
    if s == [] then Some([])
    else if |s| == 1 || Value(s[0]).None? || Value(s[1]).None? then None
    else
      var w, x := Value(s[0]).value, Value(s[1]).value;
      if |s| == 2 then if x % 16 == 0 then Some([w * 4 + x / 16]) else None
      else if Value(s[2]).None? then None
      else
        var y := Value(s[2]).value;
        if y % 4 == 0 then Some([w * 4 + x / 16, x % 16 * 16 + y / 4]) else None
  }

  /** The alphabet of section 5 of RFC 4648, and that section's way with its own examples. */
  lemma SymbolIs(v: sextet)
    ensures Symbol(v) ==
            if v < 26 then "ABCDEFGHIJKLMNOPQRSTUVWXYZ"[v]
            else if v < 52 then "abcdefghijklmnopqrstuvwxyz"[v - 26]
            else "0123456789-_"[v - 52]
  {
  }

  lemma FoobarEncodes()
    ensures Encode([0x66]) == "Zg" && Encode([0x66, 0x6f]) == "Zm8" && Encode([0x66, 0x6f, 0x6f]) == "Zm9v"
    ensures Encode([0x66, 0x6f, 0x6f, 0x62, 0x61, 0x72]) == "Zm9vYmFy"
  {
    assert [0x66, 0x6f, 0x6f][3..] == [];
    var foobar: Bytes := [0x66, 0x6f, 0x6f, 0x62, 0x61, 0x72];
    assert foobar[3..] == [0x62, 0x61, 0x72] && [0x62, 0x61, 0x72][3..] == [];
    assert Encode([0x62, 0x61, 0x72]) == Group(0x62, 0x61, 0x72) + Encode([]);
  }

  lemma ValueSpells(ch: char)
    ensures Value(ch).Some? ==> Symbol(Value(ch).value) == ch
  {
  }

  lemma ThreeSplits(w: sextet, x: sextet, y: sextet, z: sextet)
    ensures var b := Three(w, x, y, z);
            && b[0] / 4 == w && b[0] % 4 * 16 + b[1] / 16 == x && b[1] % 16 * 4 + b[2] / 64 == y && b[2] % 64 == z
  {
  }

  lemma LastIsCanonical(s: string)
    requires |s| < 4 && DecodeLast(s).Some?
    ensures |DecodeLast(s).value| < 3 && Encode(DecodeLast(s).value) == s
  {
    hide Symbol, Value;
    if s != [] {
      ValueSpells(s[0]);
      ValueSpells(s[1]);
      var w, x := Value(s[0]).value, Value(s[1]).value;
      if |s| == 2 {
        ThreeSplits(w, x, 0, 0);
      } else {
        ValueSpells(s[2]);
        ThreeSplits(w, x, Value(s[2]).value, 0);
      }
    }
  }

  /** Text decodes exactly when it is the encoding of some bytes: no byte string has a second
      spelling. */
  lemma {:induction false} DecodeIsCanonical(s: string)
    ensures Decode(s).Some? ==> Encode(Decode(s).value) == s
  {
    hide Symbol, Value, Three, DecodeLast;
    if Decode(s).Some? {
      if |s| < 4 {
        LastIsCanonical(s);
      } else {
        DecodeIsCanonical(s[4..]);
        ValueSpells(s[0]);
        ValueSpells(s[1]);
        ValueSpells(s[2]);
        ValueSpells(s[3]);
        var w, x, y, z := Value(s[0]).value, Value(s[1]).value, Value(s[2]).value, Value(s[3]).value;
        ThreeSplits(w, x, y, z);
        ThreeIsThree(w, x, y, z);
        var rest := Decode(s[4..]).value;
        assert Decode(s).value[3..] == rest;
        assert s == [s[0], s[1], s[2], s[3]] + s[4..];
      }
    }
  }

  lemma ThreeIsThree(w: sextet, x: sextet, y: sextet, z: sextet)
    ensures |Three(w, x, y, z)| == 3
  {
  }

  lemma SymbolReads(v: sextet)
    ensures Value(Symbol(v)) == Some(v) && Symbol(v) != '?'
  {
  }

  lemma GroupReads(a: byte, b: byte, c: byte)
    ensures var s := Group(a, b, c);
            && Value(s[0]) == Some(a / 4) && Value(s[1]) == Some(a % 4 * 16 + b / 16)
            && Value(s[2]) == Some(b % 16 * 4 + c / 64) && Value(s[3]) == Some(c % 64)
            && Three(a / 4, a % 4 * 16 + b / 16, b % 16 * 4 + c / 64, c % 64) == [a, b, c]
  {
    hide Symbol, Value, Three;
    SymbolReads(a / 4);
    SymbolReads(a % 4 * 16 + b / 16);
    SymbolReads(b % 16 * 4 + c / 64);
    SymbolReads(c % 64);
    ThreeReads(a, b, c);
  }

  lemma ThreeReads(a: byte, b: byte, c: byte)
    ensures Three(a / 4, a % 4 * 16 + b / 16, b % 16 * 4 + c / 64, c % 64) == [a, b, c]
  {
    PairReads(a, b);
    var x, y := a % 4 * 16 + b / 16, b % 16 * 4 + c / 64;
    assert x % 16 == b / 16 && y / 4 == b % 16 && y % 4 == c / 64;
  }

  lemma PairReads(a: byte, b: byte)
    ensures var x, y := a % 4 * 16 + b / 16, b % 16 * 4;
            a / 4 * 4 + x / 16 == a && x % 16 * 16 + y / 4 == b && y % 4 == 0
  {
  }

  lemma LastReads(b: Bytes)
    requires |b| < 3
    ensures |Encode(b)| < 4 && DecodeLast(Encode(b)) == Some(b)
  {
    hide Symbol, Value;
    assert |b| == 1 ==> b == [b[0]];
    assert |b| == 2 ==> b == [b[0], b[1]];
    if |b| == 1 {
      PairReads(b[0], 0);
      SymbolReads(b[0] / 4);
      SymbolReads(b[0] % 4 * 16);
    } else if |b| == 2 {
      PairReads(b[0], b[1]);
      SymbolReads(b[0] / 4);
      SymbolReads(b[0] % 4 * 16 + b[1] / 16);
      SymbolReads(b[1] % 16 * 4);
    }
  }

  lemma {:induction false} DecodeInvertsEncode(b: Bytes)
    ensures Decode(Encode(b)) == Some(b)
  {
    hide Group, Three, Value, DecodeLast;
    if |b| < 3 {
      LastReads(b);
    } else {
      DecodeInvertsEncode(b[3..]);
      GroupReads(b[0], b[1], b[2]);
      assert Encode(b)[4..] == Encode(b[3..]);
      assert [b[0], b[1], b[2]] + b[3..] == b;
    }
  }

  /** A cut text that still decodes gives a cut of the bytes. */
  lemma {:induction false} StrictPrefixesLoseBytes(b: Bytes, n: nat)
    requires n < |Encode(b)| && Decode(Encode(b)[..n]).Some?
    ensures Decode(Encode(b)[..n]).value < b
  {
    hide Group, Three, Value, DecodeLast;
    var s := Encode(b);
    if n < 4 {
      CutGroupReads(b, n);
    } else {
      LongTextLongBytes(b);
      GroupReads(b[0], b[1], b[2]);
      assert s[4..] == Encode(b[3..]) && s[..n][4..] == s[4..][..n - 4];
      StrictPrefixesLoseBytes(b[3..], n - 4);
      PrefixAfterThree(b, Decode(s[4..][..n - 4]).value);
    }
  }

  lemma PrefixAfterThree(b: Bytes, rest: Bytes)
    requires |b| >= 3 && rest < b[3..]
    ensures [b[0], b[1], b[2]] + rest < b
  {
    assert [b[0], b[1], b[2]] + b[3..] == b;
  }

  lemma LongTextLongBytes(b: Bytes)
    requires |Encode(b)| >= 4
    ensures |b| >= 3
  {
  }

  lemma CutGroupReads(b: Bytes, n: nat)
    requires n < 4 && n < |Encode(b)| && Decode(Encode(b)[..n]).Some?
    ensures Decode(Encode(b)[..n]).value < b
  {
    hide Symbol, Value;
    if |b| == 1 {
      CutOne(b, n);
    } else {
      CutMore(b, n);
    }
  }

  lemma CutOne(b: Bytes, n: nat)
    requires |b| == 1 && n < 2 && Decode(Encode(b)[..n]).Some?
    ensures Decode(Encode(b)[..n]).value < b
  {
    hide Symbol, Value;
  }

  lemma CutMore(b: Bytes, n: nat)
    requires |b| > 1 && n < 4 && n < |Encode(b)| && Decode(Encode(b)[..n]).Some?
    ensures Decode(Encode(b)[..n]).value < b
  {
    hide Symbol, Value;
    var first := b[0] % 4 * 16 + b[1] / 16;
    SymbolReads(b[0] / 4);
    SymbolReads(first);
    assert Encode(b)[0] == Symbol(b[0] / 4) && Encode(b)[1] == Symbol(first);
    PairReads(b[0], b[1]);
    if n == 3 {
      assert |b| > 2;
      SymbolReads(b[1] % 16 * 4 + b[2] / 64);
      assert Encode(b)[2] == Symbol(b[1] % 16 * 4 + b[2] / 64);
      PairReads(b[1], b[2]);
    }
  }

  lemma {:induction false} NoQuestionMark(b: Bytes)
    ensures '?' !in Encode(b)
  {
    hide Symbol;
    if |b| == 1 {
      SymbolReads(b[0] / 4);
      SymbolReads(b[0] % 4 * 16);
    } else if |b| == 2 {
      SymbolReads(b[0] / 4);
      SymbolReads(b[0] % 4 * 16 + b[1] / 16);
      SymbolReads(b[1] % 16 * 4);
    } else if |b| > 2 {
      NoQuestionMark(b[3..]);
      SymbolReads(b[0] / 4);
      SymbolReads(b[0] % 4 * 16 + b[1] / 16);
      SymbolReads(b[1] % 16 * 4 + b[2] / 64);
      SymbolReads(b[2] % 64);
    }
  }
}
