/** JSON values and the text `serde_json` writes for them, which is what `to_ascii_json` in
    `src/agent/acp.rs` escapes. Its meaning is the value's own. */
module JsonValues {
  import opened AsciiJson
  import opened Wrappers

  /** A number as printed: nothing but ASCII outside strings. */
  type Plain = t: string | forall i :: 0 <= i < |t| ==> t[i] as int < 128 && t[i] != '"' witness []

  datatype Value =
    | Null | Bool(b: bool) | Number(text: Plain) | Str(s: string)
    | Arr(items: seq<Value>) | Obj(fields: seq<Field>)

  datatype Field = Field(name: string, value: Value)

  // ---- Writing ---------------------------------------------------------------------

  /** How one character of a string is written (section 7 of RFC 8259). */
  function Quoted(c: char): string {
    match c
    case '"' => "\\\""
    case '\\' => "\\\\"
    case '\n' => "\\n"
    case '\r' => "\\r"
    case '\t' => "\\t"
    case _ =>
      if c as int == 8 then "\\b"
      else if c as int == 0xC then "\\f"
      else if c as int < 0x20 then "\\u" + Hex4(c as int)
      else [c]
  }

  function Body(s: string): string {
    if s == [] then [] else Quoted(s[0]) + Body(s[1..])
  }

  function QuotedText(s: string): string {
    ['"'] + (Body(s) + ['"'])
  }

  function Serialized(v: Value): string
    decreases v
  {
    match v
    case Null => "null"
    case Bool(b) => if b then "true" else "false"
    case Number(text) => text
    case Str(s) => QuotedText(s)
    case Arr(items) => ['['] + (SerializedItems(items) + [']'])
    case Obj(fields) => ['{'] + (SerializedFields(fields) + ['}'])
  }

  function SerializedItems(items: seq<Value>): string
    decreases items
  {
    if items == [] then []
    else Serialized(items[0]) + (if |items| == 1 then [] else [','] + SerializedItems(items[1..]))
  }

  function SerializedFields(fields: seq<Field>): string
    decreases fields
  {
    if fields == [] then []
    else
      QuotedText(fields[0].name) +
      ([':'] + (Serialized(fields[0].value) + (if |fields| == 1 then [] else [','] + SerializedFields(fields[1..]))))
  }

  // ---- Meaning ---------------------------------------------------------------------

  function Marks(t: string): seq<Item> {
    seq(|t|, i requires 0 <= i < |t| => Structural(t[i]))
  }

  function TextItems(s: string): seq<Item> {
    [Open] + (Units(AllUnits(s)) + [Close])
  }

  /** The structure of a value, and the code units of its strings. */
  function ItemsOf(v: Value): seq<Item>
    decreases v
  {
    match v
    case Null => Marks("null")
    case Bool(b) => Marks(if b then "true" else "false")
    case Number(text) => Marks(text)
    case Str(s) => TextItems(s)
    case Arr(items) => Marks(['[']) + (ItemsOfItems(items) + Marks([']']))
    case Obj(fields) => Marks(['{']) + (ItemsOfFields(fields) + Marks(['}']))
  }

  function ItemsOfItems(items: seq<Value>): seq<Item>
    decreases items
  {
    if items == [] then []
    else ItemsOf(items[0]) + (if |items| == 1 then [] else Marks([',']) + ItemsOfItems(items[1..]))
  }

  function ItemsOfFields(fields: seq<Field>): seq<Item>
    decreases fields
  {
    if fields == [] then []
    else
      TextItems(fields[0].name) +
      (Marks([':']) +
       (ItemsOf(fields[0].value) + (if |fields| == 1 then [] else Marks([',']) + ItemsOfFields(fields[1..]))))
  }

  /** `text`, followed by anything, spells `items` and then what follows. */
  ghost predicate Spells(text: string, items: seq<Item>) {
    forall rest: string {:trigger Meaning(rest, false)} ::
      Meaning(text + rest, false) == Prepend(items, Meaning(rest, false))
  }

  lemma Joined(a: string, b: string, x: seq<Item>, y: seq<Item>)
    requires Spells(a, x) && Spells(b, y)
    ensures Spells(a + b, x + y)
  {
    hide Meaning;
    forall rest: string ensures Meaning(a + b + rest, false) == Prepend(x + y, Meaning(rest, false)) {
      assert a + b + rest == a + (b + rest);
      assert Meaning(b + rest, false) == Prepend(y, Meaning(rest, false));
      PrependTwice(x, y, Meaning(rest, false));
    }
  }

  lemma Nothing()
    ensures Spells([], [])
  {
    hide Meaning, Prepend;
    forall rest: string ensures Meaning([] + rest, false) == Prepend([], Meaning(rest, false)) {
      assert [] + rest == rest;
      PrependNothing(Meaning(rest, false));
    }
  }

  lemma {:induction false} PlainSpells(t: Plain)
    ensures Spells(t, Marks(t))
  {
    if t == [] {
      Nothing();
      assert Marks(t) == [];
    } else {
      PlainSpells(t[1..]);
      OneMark(t[0]);
      Joined([t[0]], t[1..], [Structural(t[0])], Marks(t[1..]));
      assert t == [t[0]] + t[1..] && Marks(t) == [Structural(t[0])] + Marks(t[1..]);
    }
  }

  lemma OneMark(c: char)
    requires c as int < 128 && c != '"'
    ensures Spells([c], [Structural(c)])
  {
    forall rest: string ensures Meaning([c] + rest, false) == Prepend([Structural(c)], Meaning(rest, false)) {
      assert ([c] + rest)[1..] == rest;
    }
  }

  /** Inside a string, one written character spells that character's code units. */
  lemma QuotedSpells(c: char, rest: string)
    ensures Meaning(Quoted(c) + rest, true) == Prepend(Units(Utf16(c)), Meaning(rest, true))
  {
    var t := Quoted(c);
    if c as int < 0x20 && c !in "\n\r\t" && c as int != 8 && c as int != 0xC {
      EscapeReads(c as int, rest);
      assert Units(Utf16(c)) == [Unit(c as int)];
    } else if |t| == 2 {
      TwoCharacterEscape(c, t + rest);
      assert (t + rest)[2..] == rest;
    } else {
      assert (t + rest)[1..] == rest;
    }
  }

  lemma TwoCharacterEscape(c: char, s: string)
    requires |Quoted(c)| == 2 && |s| >= 2 && s[..2] == Quoted(c)
    ensures s[0] == '\\' && StringToken(s) == Some((Units(Utf16(c)), 2))
  {
    assert s[0] == s[..2][0] && s[1] == s[..2][1];
    assert Units(Utf16(c)) == [Unit(c as int)];
  }

  lemma {:induction false} BodySpells(s: string, rest: string)
    ensures Meaning(Body(s) + rest, true) == Prepend(Units(AllUnits(s)), Meaning(rest, true))
  {
    hide Meaning, Quoted, Utf16;
    if s == [] {
      assert Body(s) + rest == rest && Units(AllUnits(s)) == [];
      PrependNothing(Meaning(rest, true));
    } else {
      BodySpells(s[1..], rest);
      QuotedSpells(s[0], Body(s[1..]) + rest);
      assert Body(s) + rest == Quoted(s[0]) + (Body(s[1..]) + rest);
      PrependTwice(Units(Utf16(s[0])), Units(AllUnits(s[1..])), Meaning(rest, true));
      assert Units(AllUnits(s)) == Units(Utf16(s[0])) + Units(AllUnits(s[1..]));
    }
  }

  lemma QuoteToggles(rest: string, inString: bool)
    ensures Meaning(['"'] + rest, inString) == Prepend([if inString then Close else Open], Meaning(rest, !inString))
  {
    assert (['"'] + rest)[1..] == rest;
  }

  lemma TextSpells(s: string)
    ensures Spells(QuotedText(s), TextItems(s))
  {
    hide Meaning, Body, AllUnits;
    forall rest: string ensures Meaning(QuotedText(s) + rest, false) == Prepend(TextItems(s), Meaning(rest, false)) {
      var inside := Units(AllUnits(s));
      assert QuotedText(s) + rest == ['"'] + (Body(s) + (['"'] + rest));
      QuoteToggles(Body(s) + (['"'] + rest), false);
      BodySpells(s, ['"'] + rest);
      QuoteToggles(rest, true);
      PrependTwice(inside, [Close], Meaning(rest, false));
      PrependTwice([Open], inside + [Close], Meaning(rest, false));
    }
  }

  /** The text written for a value spells exactly that value. */
  lemma {:induction false} SerializedSpells(v: Value)
    ensures Spells(Serialized(v), ItemsOf(v))
    decreases v
  {
    hide Spells, Marks, TextItems, QuotedText;
    match v
    case Null => PlainSpells("null");
    case Bool(b) =>
      PlainSpells("true");
      PlainSpells("false");
    case Number(text) => PlainSpells(text);
    case Str(s) => TextSpells(s);
    case Arr(items) =>
      ItemsSpell(items);
      PlainSpells(['[']);
      PlainSpells([']']);
      Joined(SerializedItems(items), [']'], ItemsOfItems(items), Marks([']']));
      Joined(['['], SerializedItems(items) + [']'], Marks(['[']), ItemsOfItems(items) + Marks([']']));
    case Obj(fields) =>
      FieldsSpell(fields);
      PlainSpells(['{']);
      PlainSpells(['}']);
      Joined(SerializedFields(fields), ['}'], ItemsOfFields(fields), Marks(['}']));
      Joined(['{'], SerializedFields(fields) + ['}'], Marks(['{']), ItemsOfFields(fields) + Marks(['}']));
  }

  lemma {:induction false} ItemsSpell(items: seq<Value>)
    ensures Spells(SerializedItems(items), ItemsOfItems(items))
    decreases items
  {
    hide Spells, Marks;
    if items == [] {
      Nothing();
    } else {
      var more, spelled := "", [];
      if |items| == 1 {
        Nothing();
      } else {
        ItemsSpell(items[1..]);
        PlainSpells([',']);
        Joined([','], SerializedItems(items[1..]), Marks([',']), ItemsOfItems(items[1..]));
        more, spelled := [','] + SerializedItems(items[1..]), Marks([',']) + ItemsOfItems(items[1..]);
      }
      SerializedSpells(items[0]);
      Joined(Serialized(items[0]), more, ItemsOf(items[0]), spelled);
    }
  }

  lemma {:induction false} FieldsSpell(fields: seq<Field>)
    ensures Spells(SerializedFields(fields), ItemsOfFields(fields))
    decreases fields
  {
    hide Spells, Marks, TextItems, QuotedText;
    if fields == [] {
      Nothing();
    } else {
      var name, value := fields[0].name, fields[0].value;
      var more, spelled := "", [];
      if |fields| == 1 {
        Nothing();
      } else {
        FieldsSpell(fields[1..]);
        PlainSpells([',']);
        Joined([','], SerializedFields(fields[1..]), Marks([',']), ItemsOfFields(fields[1..]));
        more, spelled := [','] + SerializedFields(fields[1..]), Marks([',']) + ItemsOfFields(fields[1..]);
      }
      SerializedSpells(value);
      TextSpells(name);
      PlainSpells([':']);
      Joined(Serialized(value), more, ItemsOf(value), spelled);
      Joined([':'], Serialized(value) + more, Marks([':']), ItemsOf(value) + spelled);
      Joined(QuotedText(name), [':'] + (Serialized(value) + more), TextItems(name),
             Marks([':']) + (ItemsOf(value) + spelled));
    }
  }

  /** What goes to the agent: ASCII, and it means the value that was sent. */
  lemma SentTextMeansTheValue(v: Value)
    ensures IsAscii(Escaped(Serialized(v)))
    ensures Meaning(Escaped(Serialized(v)), false) == Some(ItemsOf(v))
  {
    SerializedSpells(v);
    var text := Serialized(v);
    assert text + [] == text;
    assert Meaning([], false) == Some([]) && ItemsOf(v) + [] == ItemsOf(v);
    hide Meaning, Serialized, ItemsOf;
    assert Meaning(text + [], false) == Prepend(ItemsOf(v), Meaning([], false));
    EscapingKeepsMeaning(text, false);
    EscapedIsAscii(text);
  }
}
