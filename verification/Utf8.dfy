/** What it is for invite bytes to be text (`String::from_utf8` in `src/invite.rs`): they are
    the UTF-8 of some characters, written the one way section 3 of RFC 3629 allows. */
module Utf8Texts {
  import opened Octets
  import opened Wire

  /** The bytes of one character. */
  function Utf8Of(c: char): Bytes {
    var v := c as int;
    if v < 0x80 then [v]
    else if v < 0x800 then [0xC0 + v / 64, 0x80 + v % 64]
    else if v < 0x1_0000 then [0xE0 + v / 4096, 0x80 + v / 64 % 64, 0x80 + v % 64]
    else [0xF0 + v / 0x4_0000, 0x80 + v / 4096 % 64, 0x80 + v / 64 % 64, 0x80 + v % 64]
  }

  function Utf8Text(s: string): Bytes {
    if s == [] then [] else Utf8Of(s[0]) + Utf8Text(s[1..])
  }

  lemma CharacterFirst(c: char, rest: Bytes)
    ensures IsUtf8(Utf8Of(c) + rest) <==> IsUtf8(rest)
  {
    var b, v := Utf8Of(c) + rest, c as int;
    assert b[|Utf8Of(c)|..] == rest;
    if v >= 0x800 {
      Groups(v);
    }
  }

  /** A number's groups of six bits; the surrogates, which are no characters, have 0xD as
      their top and at least 0x20 as their middle. */
  lemma Groups(v: nat)
    requires v < 0x11_0000
    ensures v == v / 4096 * 4096 + v / 64 % 64 * 64 + v % 64
    ensures v / 4096 == v / 0x4_0000 * 64 + v / 4096 % 64
  {
    assert v / 64 == v / 4096 * 64 + v / 64 % 64 && v == v / 64 * 64 + v % 64;
  }

  /** Every text's bytes are UTF-8. */
  lemma {:induction false} TextsAreUtf8(s: string)
    ensures IsUtf8(Utf8Text(s))
  {
    if s != [] {
      TextsAreUtf8(s[1..]);
      CharacterFirst(s[0], Utf8Text(s[1..]));
    }
  }

  /** The character at the front of UTF-8 bytes. */
  lemma FirstCharacter(b: Bytes) returns (c: char)
    requires b != [] && IsUtf8(b)
    ensures Utf8Of(c) <= b && IsUtf8(b[|Utf8Of(c)|..])
  {
    hide IsUtf8;
    if b[0] < 0x80 {
      IsUtf8Step(b);
      c := b[0] as char;
    } else if b[0] < 0xE0 {
      IsUtf8Step(b);
      var v: int := (b[0] as int - 0xC0) * 64 + (b[1] as int - 0x80);
      assert v / 64 == b[0] - 0xC0 && v % 64 == b[1] - 0x80;
      c := v as char;
    } else if b[0] < 0xF0 {
      IsUtf8Step(b);
      c := ThreeBytes(b[0], b[1], b[2]);
    } else {
      IsUtf8Step(b);
      c := FourBytes(b[0], b[1], b[2], b[3]);
    }
  }

  lemma IsUtf8Step(b: Bytes)
    requires b != [] && IsUtf8(b)
    ensures b[0] < 0x80 ==> IsUtf8(b[1..])
    ensures 0x80 <= b[0] < 0xE0 ==> b[0] >= 0xC2 && |b| >= 2 && IsTail(b[1]) && IsUtf8(b[2..])
    ensures 0xE0 <= b[0] < 0xF0 ==>
              |b| >= 3 && IsTail(b[1]) && IsTail(b[2]) && (b[0] == 0xE0 ==> b[1] >= 0xA0)
              && (b[0] == 0xED ==> b[1] < 0xA0) && IsUtf8(b[3..])
    ensures 0xF0 <= b[0] ==>
              b[0] <= 0xF4 && |b| >= 4 && IsTail(b[1]) && IsTail(b[2]) && IsTail(b[3])
              && (b[0] == 0xF0 ==> b[1] >= 0x90) && (b[0] == 0xF4 ==> b[1] < 0x90) && IsUtf8(b[4..])
  {
  }

  lemma ThreeBytes(x: byte, y: byte, z: byte) returns (c: char)
    requires 0xE0 <= x < 0xF0 && IsTail(y) && IsTail(z)
    requires (x == 0xE0 ==> y >= 0xA0) && (x == 0xED ==> y < 0xA0)
    ensures Utf8Of(c) == [x, y, z]
  {
    var v: int := (x - 0xE0) * 4096 + (y - 0x80) * 64 + (z - 0x80);
    assert v / 64 == (x - 0xE0) * 64 + (y - 0x80) && v % 64 == z - 0x80;
    assert v / 4096 == x - 0xE0 && v / 64 % 64 == y - 0x80;
    c := v as char;
  }

  lemma FourBytes(x: byte, y: byte, z: byte, w: byte) returns (c: char)
    requires 0xF0 <= x <= 0xF4 && IsTail(y) && IsTail(z) && IsTail(w)
    requires (x == 0xF0 ==> y >= 0x90) && (x == 0xF4 ==> y < 0x90)
    ensures Utf8Of(c) == [x, y, z, w]
  {
    var v: int := (x - 0xF0) * 0x4_0000 + (y - 0x80) * 4096 + (z - 0x80) * 64 + (w - 0x80);
    var u: int := (x - 0xF0) * 4096 + (y - 0x80) * 64 + (z - 0x80);
    assert v / 64 == u && v % 64 == w - 0x80;
    assert u / 64 == (x - 0xF0) * 64 + (y - 0x80) && u % 64 == z - 0x80;
    assert v / 4096 == u / 64 && v / 0x4_0000 == u / 4096;
    assert u / 4096 == x - 0xF0 && u / 64 % 64 == y - 0x80;
    c := v as char;
  }

  /** And all UTF-8 is some text's bytes. */
  lemma {:induction false} Utf8IsText(b: Bytes) returns (s: string)
    requires IsUtf8(b)
    ensures Utf8Text(s) == b
    decreases |b|
  {
    s := [];
    if b != [] {
      var c := FirstCharacter(b);
      hide Utf8Of;
      NotNothing(c);
      var rest := Utf8IsText(b[|Utf8Of(c)|..]);
      s := [c] + rest;
      assert s[1..] == rest;
    }
  }

  lemma NotNothing(c: char)
    ensures Utf8Of(c) != []
  {
  }

  /** Bytes are text exactly when they are the UTF-8 of some characters. */
  lemma TextExactlyWhen(b: Bytes)
    ensures IsUtf8(b) <==> exists s: string :: Utf8Text(s) == b
  {
    hide IsUtf8, Utf8Text;
    if IsUtf8(b) {
      var s := Utf8IsText(b);
    }
    if s: string :| Utf8Text(s) == b {
      TextsAreUtf8(s);
    }
  }
}
