/** Register values as the GDB stub of vmi-driver-qemu exchanges them: bytes least
    significant first, two hex digits each.  Text is its ASCII bytes. */
module GdbHex {
  import opened Words
  import opened VmiTypes

  const BAD_WIDTH := VmiError.Backend("invalid GDB register width")
  const BAD_HEX := VmiError.Backend("invalid GDB register hex")

  function HexDigit(nibble: byte): byte
    requires nibble < 16
  {
    if nibble < 10 then 0x30 + nibble else 0x61 + (nibble - 10)
  }

  /** `0-9`, `a-f` or `A-F` */
  function HexNibble(c: byte): (r: Option<byte>)
    ensures r.Some? ==> r.value < 16
  {
    if 0x30 <= c <= 0x39 then Some(c - 0x30)
    else if 0x61 <= c <= 0x66 then Some(c - 0x61 + 10)
    else if 0x41 <= c <= 0x46 then Some(c - 0x41 + 10)
    else None
  }

  /** Digits are written in lower case and read in either. */
  lemma HexDigitsExact(c: byte, i: byte)
    requires i < 16
    ensures HexDigit(i) == "0123456789abcdef"[i] as int
    ensures HexNibble(c) == Some(i) <==> c == "0123456789abcdef"[i] as int || c == "0123456789ABCDEF"[i] as int
  {
    assert "0123456789abcdef"[i] as int == if i < 10 then 0x30 + i else 0x61 + (i - 10);
    assert "0123456789ABCDEF"[i] as int == if i < 10 then 0x30 + i else 0x41 + (i - 10);
  }

  // ---------- what the text of some bytes is ----------

  function HexOf(b: seq<byte>): (s: seq<byte>)
    ensures |s| == 2 * |b|
  {
    if b == [] then [] else [HexDigit(b[0] / 16), HexDigit(b[0] % 16)] + HexOf(b[1..])
  }

  /** `s` spells `b`, in either case. */
  predicate Spells(s: seq<byte>, b: seq<byte>) {
    |s| == 2 * |b| &&
    forall i | 0 <= i < |b| ::
      && HexNibble(s[2 * i]) == Some(b[i] / 16)
      && HexNibble(s[2 * i + 1]) == Some(b[i] % 16)
  }

  lemma {:induction false} HexOfAt(b: seq<byte>, i: nat)
    requires i < |b|
    ensures HexOf(b)[2 * i] == HexDigit(b[i] / 16) && HexOf(b)[2 * i + 1] == HexDigit(b[i] % 16)
  {
    if i > 0 { HexOfAt(b[1..], i - 1); }
  }

  lemma HexSpells(b: seq<byte>)
    ensures Spells(HexOf(b), b)
  {
    forall i | 0 <= i < |b|
      ensures HexNibble(HexOf(b)[2 * i]) == Some(b[i] / 16) && HexNibble(HexOf(b)[2 * i + 1]) == Some(b[i] % 16)
    {
      HexOfAt(b, i);
    }
  }

  /** A text spells at most one string of bytes. */
  lemma SpellsOnce(s: seq<byte>, a: seq<byte>, b: seq<byte>)
    requires Spells(s, a) && Spells(s, b)
    ensures a == b
  {
    forall i | 0 <= i < |a| ensures a[i] == b[i] {
      assert a[i] / 16 == b[i] / 16 && a[i] % 16 == b[i] % 16;
    }
  }

  lemma {:induction false} HexPush(b: seq<byte>, last: byte)
    ensures HexOf(b + [last]) == HexOf(b) + [HexDigit(last / 16), HexDigit(last % 16)]
  {
    if b == [] {
      assert b + [last] == [last] && HexOf([last][1..]) == [];
    } else {
      assert (b + [last])[1..] == b[1..] + [last];
      HexPush(b[1..], last);
    }
  }

  // ---------- encoding ----------

  method EncodeLittleHex(value: u64, width: nat) returns (r: Result<seq<byte>>)
    ensures r == if width > 8 then Err(BAD_WIDTH) else Ok(HexOf(ToLe(value, 8)[..width]))
  {
    if width > 8 { return Err(BAD_WIDTH); }
    var bytes := ToLe(value, 8);
    var encoded: seq<byte> := [];
    for i := 0 to width
      invariant encoded == HexOf(bytes[..i])
    {
      assert bytes[..i + 1] == bytes[..i] + [bytes[i]];
      HexPush(bytes[..i], bytes[i]);
      encoded := encoded + [HexDigit(bytes[i] / 16)];
      encoded := encoded + [HexDigit(bytes[i] % 16)];
    }
    r := Ok(encoded);
  }

  // ---------- decoding ----------

  predicate Hexadecimal(s: seq<byte>) { forall i | 0 <= i < |s| :: HexNibble(s[i]).Some? }

  /** Succeeds exactly on `2 * width` hex digits, with the number that the bytes
      they spell denote, the bytes above being zero. */
  method DecodeLittleHex(s: seq<byte>, width: nat) returns (r: Result<u64>, ghost b: seq<byte>)
    ensures r.Ok? <==> width <= 8 && |s| == 2 * width && Hexadecimal(s)
    ensures r.Ok? ==> Spells(s, b) && r.value == FromLe(b)
  {
    hide FromLe, HexNibble;
    b := [];
    if width > 8 || |s| != 2 * width { return Err(BAD_WIDTH), b; }
    var bytes := new byte[8](_ => 0);
    for i := 0 to width
      invariant Spells(s[..2 * i], bytes[..i])
      invariant Hexadecimal(s[..2 * i])
      invariant forall j | i <= j < 8 :: bytes[j] == 0
    {
      var high, low := HexNibble(s[2 * i]), HexNibble(s[2 * i + 1]);
      if high.None? || low.None? { return Err(BAD_HEX), b; }
      ghost var before := bytes[..i];
      assert forall j | 0 <= j < 2 * i :: s[..2 * i][j] == s[..2 * (i + 1)][j];
      bytes[i] := high.value * 16 + low.value;
      assert bytes[..i + 1] == before + [high.value * 16 + low.value];
    }
    b := bytes[..width];
    assert s[..2 * width] == s;
    Zeros(b, bytes[..]);
    U64Bound(bytes[..]);
    r := Ok(FromLe(bytes[..]));
  }

  lemma U64Bound(b: seq<byte>)
    requires |b| == 8
    ensures FromLe(b) < U64_LIMIT
  {
    var x := U64FromLe(b);
  }

  lemma {:induction false} Zeros(b: seq<byte>, all: seq<byte>)
    requires |b| <= |all| && all[..|b|] == b && forall j | |b| <= j < |all| :: all[j] == 0
    ensures FromLe(all) == FromLe(b)
  {
    if b != [] {
      assert all[1..][..|b| - 1] == b[1..] by { assert forall j | 0 <= j < |b| :: all[..|b|][j] == b[j]; }
      Zeros(b[1..], all[1..]);
    } else if all != [] {
      Zeros(b, all[1..]);
    }
  }

  // ---------- the round trip ----------

  lemma {:induction false} LowBytes(x: nat, width: nat, total: nat)
    requires width <= total
    ensures ToLe(x, total)[..width] == ToLe(x, width)
  {
    if width > 0 {
      LowBytes(x / 0x100, width - 1, total - 1);
      assert ToLe(x, total)[..width] == [x % 0x100] + ToLe(x / 0x100, total - 1)[..width - 1];
    }
  }

  /** A value that passes the guard of `write_register` is read back unchanged:
      whatever bytes the encoded text spells, they denote it. */
  lemma RegisterRoundTrip(value: u64, width: nat, b: seq<byte>)
    requires width <= 8 && value < Pow2(8 * width)
    ensures Hexadecimal(HexOf(ToLe(value, 8)[..width]))
    ensures Spells(HexOf(ToLe(value, 8)[..width]), b) ==> FromLe(b) == value
  {
    var bytes := ToLe(value, 8)[..width];
    HexSpells(bytes);
    LowBytes(value, width, 8);
    LeRoundTrip(value, width);
    var s := HexOf(bytes);
    forall i | 0 <= i < |s| ensures HexNibble(s[i]).Some? {
      assert HexNibble(s[2 * (i / 2)]).Some? && HexNibble(s[2 * (i / 2) + 1]).Some?;
    }
    if Spells(s, b) { SpellsOnce(s, b, bytes); }
  }
}
