/** ASCII-only JSON (`to_ascii_json` in `src/agent/acp.rs`), and what JSON text means, so
    that escaping can be seen to keep it. */
module AsciiJson {
  import Octets
  import opened Wrappers

  /** A UTF-16 code unit. */
  type u16 = n: int | 0 <= n < 0x1_0000

  /** The UTF-16 code units of a character (section 2.1 of RFC 2781). */
  function Utf16(c: char): seq<u16> {
    var v := c as int;
    if v < 0x1_0000 then [v]
    else [0xD800 + (v - 0x1_0000) / 0x400, 0xDC00 + (v - 0x1_0000) % 0x400]
  }

  function HexDigit(d: nat): char
    requires d < 16
  {
    Octets.HexDigit(d) as char
  }

  /** `{:04x}`. */
  function Hex4(u: u16): (s: string)
    ensures |s| == 4
  {
    [HexDigit(u / 0x1000), HexDigit(u / 0x100 % 16), HexDigit(u / 16 % 16), HexDigit(u % 16)]
  }

  predicate IsAscii(s: string) {
    forall c :: c in s ==> c as int < 128
  }

  function EscapeUnits(units: seq<u16>): string {
    if units == [] then [] else "\\u" + Hex4(units[0]) + EscapeUnits(units[1..])
  }

  function Escape(c: char): string {
    if c as int < 128 then [c] else EscapeUnits(Utf16(c))
  }

  function Escaped(raw: string): string {
    if raw == [] then [] else Escape(raw[0]) + Escaped(raw[1..])
  }

  /** One character's escapes, a UTF-16 unit at a time. */
  method PushEscapes(out: string, ch: char) returns (r: string)
    ensures r == out + EscapeUnits(Utf16(ch))
  {
    hide Hex4, Utf16;
    var units := Utf16(ch);
    r := out;
    for j := 0 to |units|
      invariant r + EscapeUnits(units[j..]) == out + EscapeUnits(units)
    {
      assert units[j..][1..] == units[j + 1..];
      ghost var escape := "\\u" + Hex4(units[j]);
      assert EscapeUnits(units[j..]) == escape + EscapeUnits(units[j + 1..]);
      ghost var before := r;
      r := r + "\\u" + Hex4(units[j]);
      assert r == before + escape;
    }
    assert units[|units|..] == [];
  }

  /** Escape the text `serde_json` produced for a message. */
  method ToAsciiJson(raw: string) returns (out: string)
    ensures out == Escaped(raw)
  {
    if IsAscii(raw) {
      AsciiUnchanged(raw);
      return raw;
    }
    out := "";
    for i := 0 to |raw|
      invariant out + Escaped(raw[i..]) == Escaped(raw)
    {
      hide EscapeUnits, Utf16, IsAscii, Escaped;
      var ch := raw[i];
      EscapedStep(raw, i, out);
      if ch as int < 128 {
        out := out + [ch];
      } else {
        out := PushEscapes(out, ch);
      }
    }
    assert raw[|raw|..] == [];
  }

  lemma EscapedStep(raw: string, i: nat, out: string)
    requires i < |raw|
    ensures out + Escaped(raw[i..]) == (out + Escape(raw[i])) + Escaped(raw[i + 1..])
  {
    hide Escape;
    assert raw[i..][1..] == raw[i + 1..];
    var a, b := Escape(raw[i]), Escaped(raw[i + 1..]);
    assert Escaped(raw[i..]) == a + b;
    assert out + (a + b) == (out + a) + b;
  }

  lemma {:induction false} AsciiUnchanged(raw: string)
    requires IsAscii(raw)
    ensures Escaped(raw) == raw
  {
    if raw != [] {
      assert raw[0] in raw;
      forall c | c in raw[1..] ensures c as int < 128 { assert c in raw; }
      AsciiUnchanged(raw[1..]);
    }
  }

  // ---- What JSON text means --------------------------------------------------------

  /** One unit of meaning: a structural character, a string's quote, or a UTF-16 code
      unit of a string's value. */
  datatype Item = Structural(c: char) | Open | Close | Unit(u: u16)

  function HexValue(c: char): (r: Option<nat>)
    ensures r.Some? ==> r.value < 16
  {
    Octets.HexValue(c as int)
  }

  /** The code unit four hex digits spell. */
  function ReadHex4(s: string): Option<u16> {
    if |s| < 4 then None
    else
      match (HexValue(s[0]), HexValue(s[1]), HexValue(s[2]), HexValue(s[3]))
      case (Some(a), Some(b), Some(c), Some(d)) => Some(a * 0x1000 + b * 0x100 + c * 16 + d)
      case _ => None
  }

  /** The two-character escapes (section 7 of RFC 8259). */
  function ShortEscape(c: char): Option<u16> {
    match c
    case '"' => Some(0x22)
    case '\\' => Some(0x5C)
    case '/' => Some(0x2F)
    case 'b' => Some(8)
    case 'f' => Some(0xC)
    case 'n' => Some(0xA)
    case 'r' => Some(0xD)
    case 't' => Some(9)
    case _ => None
  }

  /** One token of a string's inside, and how much text it took. */
  function StringToken(s: string): Option<(seq<Item>, nat)>
    requires s != [] && s[0] != '"'
  {
    if s[0] == '\\' then
      if |s| < 2 then None
      else if s[1] == 'u' then
        match ReadHex4(s[2..])
        case Some(u) => Some(([Unit(u)], 6))
        case None => None
      else
        match ShortEscape(s[1])
        case Some(u) => Some(([Unit(u)], 2))
        case None => None
    else if s[0] as int < 0x20 then None
    else Some((Units(Utf16(s[0])), 1))
  }

  function Units(units: seq<u16>): seq<Item> {
    seq(|units|, i requires 0 <= i < |units| => Unit(units[i]))
  }

  function Prepend(items: seq<Item>, rest: Option<seq<Item>>): Option<seq<Item>> {
    match rest
    case Some(more) => Some(items + more)
    case None => None
  }

  /** The meaning of JSON text, or nothing if its strings are malformed or a character
      outside ASCII occurs outside them. Every valid JSON text has a meaning. */
  function Meaning(s: string, inString: bool): Option<seq<Item>>
    decreases |s|
  {
    if s == [] then if inString then None else Some([])
    else if s[0] == '"' then Prepend([if inString then Close else Open], Meaning(s[1..], !inString))
    else if !inString then
      if s[0] as int >= 128 then None else Prepend([Structural(s[0])], Meaning(s[1..], false))
    else
      match StringToken(s)
      case None => None
      case Some((items, n)) => if n <= |s| then Prepend(items, Meaning(s[n..], true)) else None
  }

  lemma HexReads(u: u16, rest: string)
    ensures ReadHex4(Hex4(u) + rest) == Some(u) && IsAscii(Hex4(u))
  {
    hide HexDigit, HexValue;
    var s := Hex4(u) + rest;
    HexDigitReads(u / 0x1000);
    HexDigitReads(u / 0x100 % 16);
    HexDigitReads(u / 16 % 16);
    HexDigitReads(u % 16);
    assert s[0] == HexDigit(u / 0x1000) && s[1] == HexDigit(u / 0x100 % 16);
    assert s[2] == HexDigit(u / 16 % 16) && s[3] == HexDigit(u % 16);
    var h, m, l := u / 0x1000, u / 0x100, u / 16;
    assert l / 16 == m && m / 16 == h && u == 16 * l + u % 16 && l == 16 * m + l % 16 && m == 16 * h + m % 16;
  }

  lemma HexDigitReads(d: nat)
    requires d < 16
    ensures HexValue(HexDigit(d)) == Some(d) && HexDigit(d) as int < 128
  {
  }

  lemma EscapeReads(u: u16, tail: string)
    ensures Meaning("\\u" + Hex4(u) + tail, true) == Prepend([Unit(u)], Meaning(tail, true))
  {
    var s := "\\u" + Hex4(u) + tail;
    HexReads(u, tail);
    hide Hex4, ReadHex4, ShortEscape;
    assert s[2..] == Hex4(u) + tail && s[6..] == tail;
    assert StringToken(s) == Some(([Unit(u)], 6));
  }

  lemma PrependTwice(a: seq<Item>, b: seq<Item>, rest: Option<seq<Item>>)
    ensures Prepend(a, Prepend(b, rest)) == Prepend(a + b, rest)
  {
    if rest.Some? {
      assert a + (b + rest.value) == (a + b) + rest.value;
    }
  }

  lemma {:induction false} UnitsRead(units: seq<u16>, rest: string)
    ensures Meaning(EscapeUnits(units) + rest, true) == Prepend(Units(units), Meaning(rest, true))
    ensures IsAscii(EscapeUnits(units))
    decreases |units|
  {
    hide Meaning, Hex4;
    if units == [] {
      assert EscapeUnits(units) + rest == rest;
      assert Units(units) == [];
      PrependNothing(Meaning(rest, true));
    } else {
      var u, more := units[0], units[1..];
      UnitsRead(more, rest);
      HexReads(u, rest);
      var tail := EscapeUnits(more) + rest;
      EscapeReads(u, tail);
      assert EscapeUnits(units) + rest == "\\u" + Hex4(u) + tail;
      PrependTwice([Unit(u)], Units(more), Meaning(rest, true));
      assert Units(units) == [Unit(u)] + Units(more);
    }
  }

  lemma PrependNothing(rest: Option<seq<Item>>)
    ensures Prepend([], rest) == rest
  {
    assert rest.Some? ==> [] + rest.value == rest.value;
  }

  /** Escaping leaves ASCII text alone, so an escape sequence already there stays whole. */
  lemma {:induction false} AsciiPrefixKept(s: string, n: nat)
    requires n <= |s| && forall i :: 0 <= i < n ==> s[i] as int < 128
    ensures Escaped(s) == s[..n] + Escaped(s[n..])
  {
    if n > 0 {
      AsciiHeadKept(s);
      hide Escaped;
      AsciiPrefixKept(s[1..], n - 1);
      HeadThenPrefix(s, n, Escaped(s[n..]));
    } else {
      assert s[0..] == s;
    }
  }

  lemma HeadThenPrefix(s: string, n: nat, tail: string)
    requires 0 < n <= |s|
    ensures s[1..][n - 1..] == s[n..] && [s[0]] + (s[1..][..n - 1] + tail) == s[..n] + tail
  {
  }

  lemma AsciiHeadKept(s: string)
    requires s != [] && s[0] as int < 128
    ensures Escaped(s) == [s[0]] + Escaped(s[1..])
  {
  }

  lemma TokenIsAscii(s: string)
    requires s != [] && s[0] == '\\' && StringToken(s).Some?
    ensures var n := StringToken(s).value.1; n <= |s| && forall i :: 0 <= i < n ==> s[i] as int < 128
  {
    if s[1] == 'u' {
      assert s[2..][0] == s[2] && s[2..][1] == s[3] && s[2..][2] == s[4] && s[2..][3] == s[5];
    }
  }

  /** A backslash token depends only on its own text. */
  lemma TokenIsLocal(s: string, t: string)
    requires s != [] && s[0] == '\\' && StringToken(s).Some?
    requires StringToken(s).value.1 <= |s| && t != [] && StringToken(s).value.1 <= |t|
    requires s[..StringToken(s).value.1] == t[..StringToken(s).value.1]
    ensures t[0] == '\\' && StringToken(t) == StringToken(s)
  {
    var n := StringToken(s).value.1;
    assert forall i :: 0 <= i < n ==> s[i] == s[..n][i] == t[..n][i] == t[i];
    if s[1] == 'u' {
      assert ReadHex4(s[2..]) == ReadHex4(t[2..]);
    }
  }

  /** Escaping preserves meaning: every JSON text, escaped, spells the same structure and
      the same strings, and does so in ASCII. */
  lemma {:induction false} EscapingKeepsMeaning(raw: string, inString: bool)
    requires Meaning(raw, inString).Some?
    ensures Meaning(Escaped(raw), inString) == Meaning(raw, inString)
    decreases |raw|
  {
    if raw != [] {
      if raw[0] as int >= 128 {
        assert inString && StringToken(raw) == Some((Units(Utf16(raw[0])), 1));
        EscapingKeepsMeaning(raw[1..], true);
        UnitsRead(Utf16(raw[0]), Escaped(raw[1..]));
      } else if inString && raw[0] == '\\' {
        TokenIsAscii(raw);
        var n := StringToken(raw).value.1;
        AsciiPrefixKept(raw, n);
        var t := Escaped(raw);
        assert t[..n] == raw[..n] && t[n..] == Escaped(raw[n..]);
        TokenIsLocal(raw, t);
        EscapingKeepsMeaning(raw[n..], true);
      } else {
        var t := Escaped(raw);
        assert t == [raw[0]] + Escaped(raw[1..]);
        assert t[1..] == Escaped(raw[1..]);
        if raw[0] == '"' {
          EscapingKeepsMeaning(raw[1..], !inString);
        } else {
          EscapingKeepsMeaning(raw[1..], inString);
        }
      }
    }
  }

  lemma {:induction false} EscapedIsAscii(raw: string)
    ensures IsAscii(Escaped(raw))
  {
    if raw != [] {
      EscapedIsAscii(raw[1..]);
      if raw[0] as int >= 128 {
        UnitsRead(Utf16(raw[0]), "");
      }
    }
  }

  // ---- Strings back from code units ------------------------------------------------

  function FromPair(high: int, low: int): char
    requires 0xD800 <= high < 0xDC00 && 0xDC00 <= low < 0xE000
  {
    (0x1_0000 + (high - 0xD800) * 0x400 + (low - 0xDC00)) as char
  }

  /** Read code units back as characters; an unpaired surrogate is no character. */
  function FromUtf16(units: seq<u16>): Option<string> {
    if units == [] then Some([])
    else if units[0] < 0xD800 || 0xE000 <= units[0] < 0x1_0000 then
      match FromUtf16(units[1..])
      case Some(rest) => Some([units[0] as char] + rest)
      case None => None
    else if |units| >= 2 && 0xD800 <= units[0] < 0xDC00 && 0xDC00 <= units[1] < 0xE000 then
      match FromUtf16(units[2..])
      case Some(rest) => Some([FromPair(units[0], units[1])] + rest)
      case None => None
    else None
  }

  function AllUnits(s: string): seq<u16> {
    if s == [] then [] else Utf16(s[0]) + AllUnits(s[1..])
  }

  /** Code units determine the string, so equal units are equal strings. */
  lemma {:induction false} Utf16ReadsBack(s: string)
    ensures FromUtf16(AllUnits(s)) == Some(s)
  {
    if s != [] {
      Utf16ReadsBack(s[1..]);
      var units := AllUnits(s);
      var n := |Utf16(s[0])|;
      assert units[n..] == AllUnits(s[1..]);
      assert s == [s[0]] + s[1..];
    }
  }
}
