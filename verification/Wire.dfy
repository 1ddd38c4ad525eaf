/** The byte-level pieces of the invite format (`src/invite.rs`): LEB128 lengths, tagged
    fields, hex, and the bounds-checked cursor that reads them back. */
module Wire {
  import opened Octets
  import opened Wrappers

  /** Well-formed UTF-8 (section 4 of RFC 3629). */
  predicate IsUtf8(b: Bytes)
    decreases |b|
  {
    if b == [] then true
    else if b[0] < 0x80 then IsUtf8(b[1..])
    else if 0xC2 <= b[0] <= 0xDF then |b| >= 2 && IsTail(b[1]) && IsUtf8(b[2..])
    else if 0xE0 <= b[0] <= 0xEF then
      |b| >= 3 && IsTail(b[1]) && IsTail(b[2]) && (b[0] == 0xE0 ==> b[1] >= 0xA0) && (b[0] == 0xED ==> b[1] < 0xA0) &&
      IsUtf8(b[3..])
    else if 0xF0 <= b[0] <= 0xF4 then
      |b| >= 4 && IsTail(b[1]) && IsTail(b[2]) && IsTail(b[3]) && (b[0] == 0xF0 ==> b[1] >= 0x90) &&
      (b[0] == 0xF4 ==> b[1] < 0x90) && IsUtf8(b[4..])
    else false
  }

  predicate IsTail(b: byte) {
    0x80 <= b < 0xC0
  }

  /** A Rust `String`: bytes that are UTF-8. */
  type Utf8 = b: Bytes | IsUtf8(b) witness []

  datatype ReadError =
    | Truncated | BadLength | BadUtf8 | BadAddress | BadTag | TooShort | BadTime | BadBase64 | NotAnInvite

  /** What reading a field comes to: its value and the bytes after it. */
  type Read<T> = Result<(T, Bytes), ReadError>

  // ---- Writing ---------------------------------------------------------------------

  /** An unsigned LEB128 length (section 7.6 of DWARF 5). */
  function Len(n: nat): Bytes {
    if n < 128 then [n] else [n % 128 + 128] + Len(n / 128)
  }

  function Run(b: Bytes): Bytes {
    Len(|b|) + b
  }

  /** The number spelled by groups of seven bits, least significant first. */
  function GroupsValue(groups: Bytes): nat {
    if groups == [] then 0 else groups[0] % 128 + 128 * GroupsValue(groups[1..])
  }

  /** Whether `groups` is one length: every byte but the last has its high bit set. */
  predicate IsLen(groups: Bytes) {
    groups != [] && forall i :: 0 <= i < |groups| ==> (groups[i] >= 128 <==> i < |groups| - 1)
  }

  /** A length is written as the fewest groups that spell it. */
  lemma {:induction false} LenSpells(n: nat)
    ensures IsLen(Len(n)) && GroupsValue(Len(n)) == n && (|Len(n)| > 1 ==> Len(n)[|Len(n)| - 1] != 0)
    ensures Len(300) == [0xAC, 0x02]
  {
    if n >= 128 {
      LenSpells(n / 128);
      var rest := Len(n / 128);
      assert Len(n) == [n % 128 + 128] + rest && Len(n)[1..] == rest;
      forall i | 0 <= i < |Len(n)| ensures Len(n)[i] >= 128 <==> i < |Len(n)| - 1 {
        assert i > 0 ==> Len(n)[i] == rest[i - 1];
      }
    } else {
      assert Len(n)[1..] == [] && GroupsValue([]) == 0;
    }
    assert Len(300) == [0xAC] + Len(2);
  }

  method PutLen(out: Bytes, len: nat) returns (r: Bytes)
    ensures r == out + Len(len)
  {
    r := out;
    var n := len;
    while true
      invariant r + Len(n) == out + Len(len)
      decreases n
    {
      var low := n % 128;
      var rest := n / 128;
      if rest == 0 {
        r := r + [low];
        return;
      }
      assert Len(n) == [low + 128] + Len(rest);
      r := r + [low + 128];
      n := rest;
    }
  }

  method PutBytes(out: Bytes, b: Bytes) returns (r: Bytes)
    ensures r == out + Run(b)
  {
    r := PutLen(out, |b|);
    r := r + b;
  }

  // ---- Reading ---------------------------------------------------------------------

  function Take(s: Bytes, n: nat): Read<Bytes> {
    if n > |s| then Err(Truncated) else Ok((s[..n], s[n..]))
  }

  function TakeByte(s: Bytes): Read<byte> {
    if s == [] then Err(Truncated) else Ok((s[0], s[1..]))
  }

  /** At most five groups of seven bits, least significant first. */
  function TakeLen(s: Bytes, groups: nat): Read<nat>
    requires groups <= 5
    decreases 5 - groups
  {
    if groups == 5 then Err(BadLength)
    else
      var (b, rest) :- TakeByte(s);
      if b < 128 then Ok((b, rest))
      else Scaled(b - 128, 128, TakeLen(rest, groups + 1))
  }

  function TakeRun(s: Bytes): Read<Bytes> {
    var (n, rest) :- TakeLen(s, 0);
    Take(rest, n)
  }

  function TakeText(s: Bytes): Read<Utf8> {
    var (b, rest) :- TakeRun(s);
    if !IsUtf8(b) then Err(BadUtf8)
    else
      var t: Utf8 := b;
      Ok((t, rest))
  }

  function Pow128(n: nat): (p: nat)
    ensures p >= 1
  {
    if n == 0 then 1 else 128 * Pow128(n - 1)
  }

  /** A length whose higher groups are still to come. */
  function Scaled(low: nat, weight: nat, high: Read<nat>): Read<nat> {
    match high
    case Ok((h, rest)) => Ok((low + weight * h, rest))
    case Err(e) => Err(e)
  }

  /** A cursor method does what its specification says: same value or same error, and on
      success it stands at what the specification leaves. */
  ghost predicate Reads<T>(spec: Read<T>, got: Result<T, ReadError>, after: Bytes) {
    match spec
    case Ok((v, rest)) => got == Ok(v) && after == rest
    case Err(e) => got == Err(e)
  }

  lemma TakeLenStep(s: Bytes, groups: nat)
    requires groups <= 5
    ensures groups == 5 ==> TakeLen(s, groups) == Err(BadLength)
    ensures groups < 5 && TakeByte(s).Err? ==> TakeLen(s, groups) == Err(TakeByte(s).error)
    ensures groups < 5 && TakeByte(s).Ok? ==>
      var (b, rest) := TakeByte(s).value;
      TakeLen(s, groups) == if b < 128 then Ok((b, rest)) else Scaled(b - 128, 128, TakeLen(rest, groups + 1))
  {
  }

  lemma ScaledOnce(r: Read<nat>)
    ensures Scaled(0, 1, r) == r
  {
  }

  lemma ScaledDone(low: nat, weight: nat, high: nat, rest: Bytes, e: ReadError)
    ensures Scaled(low, weight, Ok((high, rest))) == Ok((low + weight * high, rest))
    ensures Scaled(low, weight, Err(e)) == Err(e)
  {
  }

  lemma ScaledTwice(n: nat, weight: nat, low: nat, high: Read<nat>)
    ensures Scaled(n, weight, Scaled(low, 128, high)) == Scaled(n + weight * low, weight * 128, high)
  {
    if high.Ok? {
      var h := high.value.0;
      assert weight * (low + 128 * h) == weight * low + (weight * 128) * h;
    }
  }

  /** The cursor. Each method moves it past what it read. */
  class Reader {
    const raw: Bytes
    var at: nat

    constructor (raw: Bytes)
      ensures this.raw == raw && at == 0
    {
      this.raw, at := raw, 0;
    }

    ghost predicate Valid()
      reads this
    {
      at <= |raw|
    }

    method TakeN(n: nat) returns (r: Result<Bytes, ReadError>)
      requires Valid()
      modifies this
      ensures Valid()
      ensures Reads(Take(raw[old(at)..], n), r, raw[at..])
    {
      var end := at + n;
      if end > |raw| {
        return Err(Truncated);
      }
      var out := raw[at..end];
      assert out == raw[at..][..n] && raw[end..] == raw[at..][n..];
      at := end;
      return Ok(out);
    }

    method Byte() returns (r: Result<byte, ReadError>)
      requires Valid()
      modifies this
      ensures Valid()
      ensures Reads(TakeByte(raw[old(at)..]), r, raw[at..])
    {
      var one := TakeN(1);
      r := if one.Ok? then Ok(one.value[0]) else Err(one.error);
    }

    method ReadLen() returns (r: Result<nat, ReadError>)
      requires Valid()
      modifies this
      ensures Valid()
      ensures Reads(TakeLen(raw[old(at)..], 0), r, raw[at..])
    {
      hide TakeLen, Scaled, TakeByte, Take, IsUtf8, Pow128;
      var n: nat, weight: nat := 0, 1;
      var groups := 0;
      ghost var start := raw[at..];
      ScaledOnce(TakeLen(start, 0));
      while true
        invariant Valid() && groups <= 5
        invariant TakeLen(start, 0) == Scaled(n, weight, TakeLen(raw[at..], groups))
        decreases 5 - groups
      {
        TakeLenStep(raw[at..], groups);
        if groups > 4 {
          ScaledDone(n, weight, 0, [], BadLength);
          return Err(BadLength);
        }
        var b := Byte();
        if b.Err? {
          ScaledDone(n, weight, 0, [], b.error);
          return Err(b.error);
        }
        if b.value < 128 {
          ScaledDone(n, weight, b.value, raw[at..], BadLength);
          return Ok(n + weight * b.value);
        }
        ScaledTwice(n, weight, b.value - 128, TakeLen(raw[at..], groups + 1));
        n := n + weight * (b.value - 128);
        weight := weight * 128;
        groups := groups + 1;
      }
    }

    method ReadRun() returns (r: Result<Bytes, ReadError>)
      requires Valid()
      modifies this
      ensures Valid()
      ensures Reads(TakeRun(raw[old(at)..]), r, raw[at..])
    {
      var n := ReadLen();
      if n.Err? {
        return Err(n.error);
      }
      r := TakeN(n.value);
    }

    method ReadText() returns (r: Result<Utf8, ReadError>)
      requires Valid()
      modifies this
      ensures Valid()
      ensures Reads(TakeText(raw[old(at)..]), r, raw[at..])
    {
      var b := ReadRun();
      if b.Err? {
        return Err(b.error);
      }
      if !IsUtf8(b.value) {
        return Err(BadUtf8);
      }
      return Ok(b.value);
    }
  }

  /** A length reads exactly when one stands at the front in at most five groups, minimal or
      not, and what it spells is what is read. */
  lemma {:induction false} LenReadsExactlyWhen(s: Bytes, groups: nat)
    requires groups <= 5
    ensures TakeLen(s, groups).Ok? <==> exists k: nat :: k <= |s| && k <= 5 - groups && IsLen(s[..k])
    ensures forall k: nat :: k <= |s| && k <= 5 - groups && IsLen(s[..k]) ==>
              TakeLen(s, groups) == Ok((GroupsValue(s[..k]), s[k..]))
    decreases 5 - groups
  {
    hide GroupsValue, Scaled;
    if groups < 5 && s != [] {
      if s[0] < 128 {
        assert s[..1] == [s[0]] && IsLen(s[..1]);
        forall k: nat | k <= |s| && k <= 5 - groups && IsLen(s[..k])
          ensures TakeLen(s, groups) == Ok((GroupsValue(s[..k]), s[k..]))
        {
          assert s[..k][0] == s[0];
          OneGroup(s[0]);
        }
      } else {
        var rest := s[1..];
        LenReadsExactlyWhen(rest, groups + 1);
        forall k: nat | k <= |s| && k <= 5 - groups && IsLen(s[..k])
          ensures k > 0 && IsLen(rest[..k - 1]) && TakeLen(s, groups) == Ok((GroupsValue(s[..k]), s[k..]))
        {
          MoreGroups(s[0], rest[..k - 1], s[..k], rest[k - 1..]);
          assert rest[k - 1..] == s[k..];
        }
        forall k: nat | k <= |rest| && k <= 5 - (groups + 1) && IsLen(rest[..k]) ensures IsLen(s[..k + 1]) {
          assert s[..k + 1] == [s[0]] + rest[..k];
        }
        if TakeLen(s, groups).Ok? {
          ScaledOk(s[0] - 128, 128, TakeLen(rest, groups + 1));
        }
      }
    }
  }

  lemma ScaledOk(low: nat, weight: nat, high: Read<nat>)
    ensures Scaled(low, weight, high).Ok? <==> high.Ok?
  {
  }

  lemma OneGroup(b: byte)
    requires b < 128
    ensures GroupsValue([b]) == b
  {
    assert [b][1..] == [] && GroupsValue([]) == 0;
  }

  lemma MoreGroups(b: byte, tail: Bytes, all: Bytes, rest: Bytes)
    requires b >= 128 && all == [b] + tail && IsLen(all)
    ensures IsLen(tail) && GroupsValue(all) == b - 128 + 128 * GroupsValue(tail)
    ensures Scaled(b - 128, 128, Ok((GroupsValue(tail), rest))) == Ok((GroupsValue(all), rest))
  {
    assert all[1..] == tail && all[0] == b;
    forall i | 0 <= i < |tail| ensures tail[i] >= 128 <==> i < |tail| - 1 {
      assert tail[i] == all[i + 1];
    }
  }

  // ---- Reading inverts writing -----------------------------------------------------

  lemma {:induction false} LenReads(n: nat, groups: nat, rest: Bytes)
    requires groups < 5 && n < Pow128(5 - groups)
    ensures TakeLen(Len(n) + rest, groups) == Ok((n, rest))
    decreases 5 - groups
  {
    var s := Len(n) + rest;
    if n < 128 {
      assert s[1..] == rest;
    } else {
      assert s == [n % 128 + 128] + (Len(n / 128) + rest);
      assert s[1..] == Len(n / 128) + rest;
      assert groups < 4 by { assert Pow128(1) == 128; }
      assert n / 128 < Pow128(5 - (groups + 1));
      LenReads(n / 128, groups + 1, rest);
    }
  }

  /** Five groups carry any length below 2^35. */
  const MAX_LEN: nat := 0x8_0000_0000

  lemma RunReads(b: Bytes, rest: Bytes)
    requires |b| < MAX_LEN
    ensures TakeRun(Run(b) + rest) == Ok((b, rest))
  {
    assert Pow128(5) == MAX_LEN by {
      assert Pow128(1) == 128 && Pow128(2) == 128 * 128 && Pow128(3) == 128 * 128 * 128;
      assert Pow128(4) == 128 * 128 * 128 * 128;
    }
    LenReads(|b|, 0, b + rest);
    assert Run(b) + rest == Len(|b|) + (b + rest);
    assert (b + rest)[..|b|] == b && (b + rest)[|b|..] == rest;
  }

  // ---- More input never changes what was read --------------------------------------

  lemma TakeStable(s: Bytes, n: nat, more: Bytes)
    requires Take(s, n).Ok?
    ensures Take(s + more, n) == Ok((Take(s, n).value.0, Take(s, n).value.1 + more))
  {
    assert (s + more)[..n] == s[..n] && (s + more)[n..] == s[n..] + more;
  }

  lemma ByteStable(s: Bytes, more: Bytes)
    requires TakeByte(s).Ok?
    ensures TakeByte(s + more) == Ok((TakeByte(s).value.0, TakeByte(s).value.1 + more))
  {
    assert (s + more)[1..] == s[1..] + more;
  }

  lemma {:induction false} LenStable(s: Bytes, groups: nat, more: Bytes)
    requires groups <= 5 && TakeLen(s, groups).Ok?
    ensures TakeLen(s + more, groups) == Ok((TakeLen(s, groups).value.0, TakeLen(s, groups).value.1 + more))
    decreases 5 - groups
  {
    ByteStable(s, more);
    var (b, rest) := TakeByte(s).value;
    if b >= 128 {
      LenStable(rest, groups + 1, more);
    }
  }

  lemma RunStable(s: Bytes, more: Bytes)
    requires TakeRun(s).Ok?
    ensures TakeRun(s + more) == Ok((TakeRun(s).value.0, TakeRun(s).value.1 + more))
  {
    LenStable(s, 0, more);
    var (n, rest) := TakeLen(s, 0).value;
    TakeStable(rest, n, more);
  }

  // ---- Hex -------------------------------------------------------------------------

  lemma {:induction false} AsciiIsUtf8(b: Bytes)
    requires forall i :: 0 <= i < |b| ==> b[i] < 128
    ensures IsUtf8(b)
  {
    if b != [] {
      AsciiIsUtf8(b[1..]);
    }
  }

  /** `hex::encode`, as the text it is. */
  function HexText(b: Bytes): (t: Utf8)
    ensures |t| == 2 * |b| && FromHex(t) == Some(b)
  {
    AsciiIsUtf8(Hex(b));
    HexInverse(b);
    Hex(b)
  }
}
