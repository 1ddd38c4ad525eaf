/** Pairing codes (`src/pairing.rs`): four words from a list of 1296, read as a number in
    base 1296, and drawn without bias. */
module Pairing {
  import opened Wrappers
  import opened Text

  const LIST_LEN: nat := 1296

  type digit = d: int | 0 <= d < 1296
  const WORDS: nat := 4
  const CODE_SPACE: nat := 1296 * 1296 * 1296 * 1296
  const U64_MAX: nat := 0xffff_ffff_ffff_ffff

  /** What splits words: white space, dots and commas, but not hyphens. */
  predicate IsSeparator(c: char) {
    IsSpace(c) || c == '.' || c == ','
  }

  function ToLower(c: char): char {
    if 'A' <= c <= 'Z' then (c as int + 32) as char else c
  }

  function Lower(s: string): (r: string)
    ensures |r| == |s| && forall i :: 0 <= i < |s| ==> r[i] == ToLower(s[i])
  {
    seq(|s|, i requires 0 <= i < |s| => ToLower(s[i]))
  }

  /** Position of the first separator, or the length. */
  function WordEnd(s: string): (i: nat)
    ensures i <= |s| && (i < |s| ==> IsSeparator(s[i]))
    ensures forall k :: 0 <= k < i ==> !IsSeparator(s[k])
  {
    if s == [] || IsSeparator(s[0]) then 0 else 1 + WordEnd(s[1..])
  }

  /** The non-empty pieces between separators. */
  function Split(s: string): seq<string>
    decreases |s|
  {
    if s == [] then []
    else
      var i := WordEnd(s);
      if i == 0 then Split(s[1..]) else [s[..i]] + Split(s[i..])
  }

  ghost predicate ValidList(list: seq<string>) {
    && |list| == LIST_LEN
    && (forall i, j :: 0 <= i < j < |list| ==> list[i] != list[j])
    && forall i :: 0 <= i < |list| ==>
      list[i] != [] && forall c :: c in list[i] ==> !IsSeparator(c) && ToLower(c) == c
  }

  /** Words joined by single spaces. */
  function Join(words: seq<string>): string {
    if words == [] then [] else if |words| == 1 then words[0] else words[0] + " " + Join(words[1..])
  }

  /** The base-1296 digits of a code, most significant first. */
  function Digits(value: nat, n: nat): (ds: seq<digit>)
    ensures |ds| == n
  {
    if n == 0 then [] else Digits(value / LIST_LEN, n - 1) + [value % LIST_LEN]
  }

  function Number(ds: seq<digit>): nat {
    if ds == [] then 0 else Number(ds[..|ds| - 1]) * LIST_LEN + ds[|ds| - 1]
  }

  function Pow(n: nat): (p: nat)
    ensures p >= 1
  {
    if n == 0 then 1 else LIST_LEN * Pow(n - 1)
  }

  lemma PowFour()
    ensures Pow(WORDS) == CODE_SPACE
  {
    assert Pow(1) == LIST_LEN && Pow(2) == LIST_LEN * LIST_LEN && Pow(3) == LIST_LEN * LIST_LEN * LIST_LEN;
  }

  lemma {:induction false} DigitsSpell(value: nat, n: nat)
    requires value < Pow(n)
    ensures Number(Digits(value, n)) == value
  {
    if n > 0 {
      DigitsSpell(value / LIST_LEN, n - 1);
      var ds := Digits(value, n);
      assert ds[..n - 1] == Digits(value / LIST_LEN, n - 1);
    }
  }

  lemma {:induction false} NumberBound(ds: seq<digit>)
    ensures Number(ds) < Pow(|ds|) && Digits(Number(ds), |ds|) == ds
  {
    if ds != [] {
      var front, last := ds[..|ds| - 1], ds[|ds| - 1];
      NumberBound(front);
      assert Number(ds) / LIST_LEN == Number(front) && Number(ds) % LIST_LEN == last;
    }
  }

  function Spelled(ds: seq<digit>, list: seq<string>): seq<string>
    requires |list| == LIST_LEN
  {
    seq(|ds|, i requires 0 <= i < |ds| => list[ds[i]])
  }

  function Shown(value: nat, list: seq<string>): string
    requires |list| == LIST_LEN
  {
    Join(Spelled(Digits(value, WORDS), list))
  }

  /** The words shown are the code's four base-1296 digits, most significant first. */
  lemma ShownSpells(value: nat, list: seq<string>)
    requires |list| == 1296 && value < 1296 * 1296 * 1296 * 1296
    ensures Shown(value, list) ==
            list[value / 1296 / 1296 / 1296] + " " + list[value / 1296 / 1296 % 1296] + " " +
            list[value / 1296 % 1296] + " " + list[value % 1296]
  {
    var a, b, c: nat := value / 1296, value / 1296 / 1296, value / 1296 / 1296 / 1296;
    assert c < 1296 && c % 1296 == c;
    assert Digits(c, 1) == Digits(c / 1296, 0) + [c % 1296] == [c];
    assert Digits(b, 2) == Digits(c, 1) + [b % 1296];
    assert Digits(a, 3) == Digits(b, 2) + [a % 1296];
    assert Digits(value, 4) == Digits(a, 3) + [value % 1296];
    hide Digits;
    var w, x, y, z := list[c], list[b % 1296], list[a % 1296], list[value % 1296];
    assert Spelled(Digits(value, 4), list) == [w, x, y, z];
    assert [w, x, y, z][1..] == [x, y, z] && [x, y, z][1..] == [y, z] && [y, z][1..] == [z];
    assert Join([z]) == z && Join([y, z]) == y + " " + z;
    assert Join([x, y, z]) == x + " " + Join([y, z]) && Join([w, x, y, z]) == w + " " + Join([x, y, z]);
  }

  /** Fill the words from the least significant up. */
  method Display(value: nat, list: seq<string>) returns (s: string)
    requires |list| == LIST_LEN
    ensures s == Shown(value, list)
  {
    var rest: nat := value;
    var words: seq<string> := ["", "", "", ""];
    var slot: nat := WORDS;
    while slot > 0
      invariant 0 <= slot <= WORDS && |words| == WORDS
      invariant Digits(value, WORDS) == Digits(rest, slot) + Digits(value, WORDS)[slot..]
      invariant forall k :: slot <= k < WORDS ==> words[k] == list[Digits(value, WORDS)[k]]
    {
      slot := slot - 1;
      assert Digits(rest, slot + 1)[slot] == rest % LIST_LEN;
      words := words[slot := list[rest % LIST_LEN]];
      rest := rest / LIST_LEN;
    }
    assert words == Spelled(Digits(value, WORDS), list);
    s := Join(words);
  }

  datatype ParseError = WrongWordCount(given: nat) | UnknownWord(word: string)

  /** `position`: the first index of `word`, if any. */
  function Position(list: seq<string>, word: string): (r: Option<nat>)
    ensures r.Some? ==> r.value < |list| && list[r.value] == word
    ensures r.None? ==> word !in list
  {
    if list == [] then None
    else if list[0] == word then Some(0)
    else
      match Position(list[1..], word)
      case None => None
      case Some(i) => Some(i + 1)
  }

  /** The first word not on the list, if any. */
  function FirstUnknown(words: seq<string>, list: seq<string>): Option<string> {
    if words == [] then None
    else if Position(list, words[0]).None? then Some(words[0])
    else FirstUnknown(words[1..], list)
  }

  function Indices(words: seq<string>, list: seq<string>): (ds: seq<digit>)
    requires |list| == LIST_LEN && forall w :: w in words ==> w in list
    ensures |ds| == |words| && forall i :: 0 <= i < |ds| ==> ds[i] < |list| && list[ds[i]] == words[i]
  {
    seq(|words|, i requires 0 <= i < |words| => assert words[i] in words; Position(list, words[i]).value)
  }

  /** Fold the words' indices into a number, most significant first. */
  method Parse(input: string, list: seq<string>) returns (r: Result<nat, ParseError>)
    requires |list| == LIST_LEN
    ensures var words := Split(Lower(input));
            if |words| != WORDS then r == Err(WrongWordCount(|words|))
            else if FirstUnknown(words, list).Some? then r == Err(UnknownWord(FirstUnknown(words, list).value))
            else (forall w :: w in words ==> w in list) && r == Ok(Number(Indices(words, list)))
    ensures r.Ok? ==> r.value < 1296 * 1296 * 1296 * 1296
    ensures r.Ok? <==> |Split(Lower(input))| == 4 && forall w :: w in Split(Lower(input)) ==> w in list
    ensures r.Err? && r.error.UnknownWord? ==> r.error.word in Split(Lower(input)) && r.error.word !in list
  {
    var words := Split(Lower(input));
    if |words| != WORDS {
      return Err(WrongWordCount(|words|));
    }
    var value := 0;
    ghost var ds: seq<digit> := [];
    for i := 0 to |words|
      invariant FirstUnknown(words[i..], list) == FirstUnknown(words, list)
      invariant |ds| == i && value == Number(ds) && value < Pow(i)
      invariant forall k :: 0 <= k < i ==> Position(list, words[k]) == Some(ds[k])
    {
      var index := Position(list, words[i]);
      assert words[i..][1..] == words[i + 1..];
      if index.None? {
        return Err(UnknownWord(words[i]));
      }
      value := value * LIST_LEN + index.value;
      assert (ds + [index.value])[..i] == ds;
      ds := ds + [index.value];
    }
    PowFour();
    forall w | w in words ensures w in list {
      var k :| 0 <= k < |words| && words[k] == w;
      assert Position(list, words[k]).Some?;
    }
    assert ds == Indices(words, list);
    return Ok(value);
  }

  // ---- Round trips -----------------------------------------------------------------

  function Parsed(input: string, list: seq<string>): Option<nat>
    requires |list| == LIST_LEN
  {
    var words := Split(Lower(input));
    if |words| == WORDS && forall w :: w in words ==> w in list then Some(Number(Indices(words, list))) else None
  }

  ghost predicate IsWord(w: string) {
    w != [] && forall c :: c in w ==> !IsSeparator(c) && ToLower(c) == c
  }

  lemma WordThenRest(w: string, rest: string)
    requires IsWord(w)
    ensures Split(w + " " + rest) == [w] + Split(rest)
  {
    var s := w + " " + rest;
    var i := WordEnd(s);
    assert s[|w|] == ' ';
    assert forall k :: 0 <= k < |w| ==> s[k] == w[k] && s[k] in w;
    assert i == |w|;
    assert s[..i] == w && s[i..] == " " + rest;
    assert WordEnd(" " + rest) == 0 && (" " + rest)[1..] == rest;
  }

  /** Any white space, dot or comma ends a word; nothing else does, hyphens included. */
  lemma SeparatorsEndWords(w: string, sep: char, rest: string)
    requires w != [] && forall c :: c in w ==> !IsSpace(c) && c != '.' && c != ','
    requires IsSpace(sep) || sep == '.' || sep == ','
    ensures Split(w + [sep] + rest) == [w] + Split(rest) && Split([sep] + rest) == Split(rest)
  {
    var s := w + [sep] + rest;
    assert s[|w|] == sep;
    assert forall k :: 0 <= k < |w| ==> s[k] == w[k] && s[k] in w;
    assert WordEnd(s) == |w|;
    assert s[..|w|] == w && s[|w|..] == [sep] + rest;
    assert WordEnd([sep] + rest) == 0 && ([sep] + rest)[1..] == rest;
  }

  lemma LastWord(w: string)
    requires IsWord(w)
    ensures Split(w) == [w]
  {
    assert forall k :: 0 <= k < |w| ==> w[k] in w;
    assert WordEnd(w) == |w|;
    assert w[..|w|] == w && w[|w|..] == [];
  }

  lemma {:induction false} SplitJoin(words: seq<string>)
    requires words != [] && forall w :: w in words ==> IsWord(w)
    ensures Split(Join(words)) == words && Lower(Join(words)) == Join(words)
    decreases |words|
  {
    hide Split, Lower, IsWord;
    assert words[0] in words && IsWord(words[0]);
    if |words| == 1 {
      LastWord(words[0]);
      assert words == [words[0]];
      LowerWord(words[0]);
    } else {
      forall w | w in words[1..] ensures IsWord(w) { assert w in words; }
      SplitJoin(words[1..]);
      WordThenRest(words[0], Join(words[1..]));
      LowerWord(words[0]);
      LowerJoin(words[0], Join(words[1..]));
    }
  }

  lemma LowerWord(w: string)
    requires IsWord(w)
    ensures Lower(w) == w
  {
    assert forall i :: 0 <= i < |w| ==> w[i] in w;
  }

  lemma LowerJoin(a: string, b: string)
    ensures Lower(a + " " + b) == Lower(a) + " " + Lower(b)
  {
  }

  /** Parsing what was shown gives the code back, for every code and every list of 1296
      distinct lowercase words without separators in them. */
  lemma ParseInvertsDisplay(value: nat, list: seq<string>)
    requires ValidList(list) && value < CODE_SPACE
    ensures Parsed(Shown(value, list), list) == Some(value)
  {
    PowFour();
    var ds := Digits(value, WORDS);
    var words := Spelled(ds, list);
    forall w | w in words ensures IsWord(w) && w in list {
      var i :| 0 <= i < |words| && words[i] == w;
      assert list[ds[i]] == w;
    }
    SplitJoin(words);
    var back := Indices(words, list);
    forall i | 0 <= i < WORDS ensures back[i] == ds[i] {
      assert list[back[i]] == words[i] == list[ds[i]];
    }
    assert back == ds;
    DigitsSpell(value, WORDS);
  }

  /** Whatever the case and separators typed, a parsed code is below 1296^4 and shows as
      the words typed, lowercased, with single spaces. */
  lemma DisplayNormalisesInput(input: string, list: seq<string>)
    requires ValidList(list) && Parsed(input, list).Some?
    ensures Parsed(input, list).value < CODE_SPACE
    ensures Shown(Parsed(input, list).value, list) == Join(Split(Lower(input)))
  {
    PowFour();
    var words := Split(Lower(input));
    var ds := Indices(words, list);
    NumberBound(ds);
    assert Spelled(ds, list) == words;
  }

  // ---- Drawing a code --------------------------------------------------------------

  const CEILING: nat := U64_MAX - U64_MAX % CODE_SPACE

  predicate FirstAccepted(draws: seq<nat>, i: nat)
    requires i < |draws|
  {
    draws[i] < CEILING && forall k :: 0 <= k < i ==> draws[k] >= CEILING
  }

  /** Rejection sampling over the 64-bit values the system hands out. */
  method Generate(draws: seq<nat>) returns (code: Option<nat>)
    ensures code.Some? <==> exists i :: 0 <= i < |draws| && draws[i] < CEILING
    ensures code.Some? ==>
      exists i :: 0 <= i < |draws| && FirstAccepted(draws, i) && code == Some(draws[i] % CODE_SPACE)
  {
    for i := 0 to |draws|
      invariant forall k :: 0 <= k < i ==> draws[k] >= CEILING
    {
      if draws[i] < CEILING {
        assert FirstAccepted(draws, i);
        return Some(draws[i] % CODE_SPACE);
      }
    }
    return None;
  }

  /** Rejection wastes little: fewer draws than there are codes are turned away. */
  lemma FewDrawsAreRejected()
    ensures CEILING % 2821109907456 == 0 && CEILING < 0x1_0000_0000_0000_0000 <= CEILING + 2821109907456
  {
  }

  /** The accepted draws that give code `c`, among those below `n` whole rounds. */
  ghost function DrawsFor(c: nat, n: nat): set<nat> {
    set d: nat | d < n * CODE_SPACE && d % CODE_SPACE == c
  }

  lemma {:induction false} DrawsCount(c: nat, n: nat)
    requires c < CODE_SPACE
    ensures |DrawsFor(c, n)| == n
  {
    if n == 0 {
      assert DrawsFor(c, n) == {};
    } else {
      DrawsCount(c, n - 1);
      var d := (n - 1) * CODE_SPACE + c;
      forall x: nat ensures x in DrawsFor(c, n) <==> x in DrawsFor(c, n - 1) || x == d {
        if (n - 1) * CODE_SPACE <= x < n * CODE_SPACE {
          Remainder(x, n - 1);
        }
      }
      Remainder(d, n - 1);
      assert DrawsFor(c, n) == DrawsFor(c, n - 1) + {d};
    }
  }

  lemma Remainder(x: nat, q: nat)
    requires q * CODE_SPACE <= x < (q + 1) * CODE_SPACE
    ensures x % CODE_SPACE == x - q * CODE_SPACE
  {
    var r := x - q * CODE_SPACE;
    assert x == CODE_SPACE * q + r && 0 <= r < CODE_SPACE;
  }

  /** Sampling is exact: every code has the same number of accepted 64-bit draws. */
  lemma EveryCodeIsEquallyLikely(c: nat, d: nat)
    requires c < CODE_SPACE && d < CODE_SPACE
    ensures |set x: nat | x < CEILING && x % CODE_SPACE == c| == CEILING / CODE_SPACE
    ensures |set x: nat | x < CEILING && x % CODE_SPACE == c| == |set x: nat | x < CEILING && x % CODE_SPACE == d|
  {
    var n := CEILING / CODE_SPACE;
    assert CEILING % CODE_SPACE == 0;
    assert n * CODE_SPACE == CEILING;
    DrawsCount(c, n);
    DrawsCount(d, n);
    assert (set x: nat | x < CEILING && x % CODE_SPACE == c) == DrawsFor(c, n);
    assert (set x: nat | x < CEILING && x % CODE_SPACE == d) == DrawsFor(d, n);
  }
}
