/**
 * The 16-byte identifier and its text form, following the behaviour of the uuid library the
 * service uses: `String` writes 32 lower-case hex digits grouped 8-4-4-4-12, and `Parse` accepts
 * that form (either letter case), the same form prefixed by "urn:uuid:" or wrapped in braces,
 * and the 32 hex digits without dashes. A Go string is a sequence of bytes holding UTF-8, and
 * `Parse` measures and indexes those bytes, so the model parses the UTF-8 encoding of the text.
 */
module Uuid {
  import opened GoTypes
  import opened Errors

  type UUID = u: seq<byte> | |u| == 16 witness [0, 0, 0, 0, 0, 0, 0, 0, 0, 0, 0, 0, 0, 0, 0, 0]

  /** The zero ("nil") identifier. */
  const Nil: UUID := [0, 0, 0, 0, 0, 0, 0, 0, 0, 0, 0, 0, 0, 0, 0, 0]

  /** The UTF-8 encoding of one character: one byte below 0x80, else a lead byte from 0xC0 and continuation bytes from 0x80. */
  function Utf8Char(c: char): (bs: seq<byte>)
    ensures 1 <= |bs| <= 4
    ensures |bs| == 1 <==> c as int < 0x80
    ensures c as int < 0x80 ==> bs == [c as int]
    ensures c as int >= 0x80 ==> bs[0] >= 0xC0 && forall j :: 0 <= j < |bs| ==> bs[j] >= 0x80
  {
    var n := c as int;
    if n < 0x80 then [n]
    else if n < 0x800 then [0xC0 + n / 0x40, 0x80 + n % 0x40]
    else if n < 0x1_0000 then [0xE0 + n / 0x1000, 0x80 + n / 0x40 % 0x40, 0x80 + n % 0x40]
    else [0xF0 + n / 0x4_0000, 0x80 + n / 0x1000 % 0x40, 0x80 + n / 0x40 % 0x40, 0x80 + n % 0x40]
  }

  /** The bytes of a Go string with the given characters; `len` counts these. */
  function Utf8(s: string): (bs: seq<byte>)
    ensures |bs| >= |s|
  {
    if |s| == 0 then [] else Utf8Char(s[0]) + Utf8(s[1..])
  }

  predicate IsAscii(s: string) {
    forall i :: 0 <= i < |s| ==> s[i] as int < 0x80
  }

  lemma {:induction false} Utf8Append(a: string, b: string)
    ensures Utf8(a + b) == Utf8(a) + Utf8(b)
  {
    if |a| > 0 {
      assert (a + b)[0] == a[0] && (a + b)[1..] == a[1..] + b;
      Utf8Append(a[1..], b);
    } else {
      assert a + b == b;
    }
  }

  /** An ASCII text has one byte per character, the character's code. */
  lemma {:induction false} Utf8Ascii(s: string)
    requires IsAscii(s)
    ensures |Utf8(s)| == |s| && forall i :: 0 <= i < |s| ==> Utf8(s)[i] == s[i] as int
  {
    if |s| > 0 {
      assert IsAscii(s[1..]) by {
        forall i | 0 <= i < |s| - 1 ensures s[1..][i] as int < 0x80 {
          assert s[1..][i] == s[i + 1];
        }
      }
      Utf8Ascii(s[1..]);
      forall i | 0 <= i < |s| ensures Utf8(s)[i] == s[i] as int {
        if i > 0 {
          assert Utf8(s)[i] == Utf8(s[1..])[i - 1] && s[1..][i - 1] == s[i];
        }
      }
    }
  }

  /** A text whose bytes are all below 0x80 is ASCII: every other character encodes to bytes from 0x80. */
  lemma {:induction false} Utf8OnlyAsciiBytes(s: string)
    requires forall j :: 0 <= j < |Utf8(s)| ==> Utf8(s)[j] < 0x80
    ensures IsAscii(s)
  {
    if |s| > 0 {
      var head, tail := Utf8Char(s[0]), Utf8(s[1..]);
      assert Utf8(s)[0] == head[0];
      forall j | 0 <= j < |tail| ensures tail[j] < 0x80 {
        assert tail[j] == Utf8(s)[|head| + j];
      }
      Utf8OnlyAsciiBytes(s[1..]);
      forall i | 0 <= i < |s| ensures s[i] as int < 0x80 {
        if i > 0 {
          assert s[i] == s[1..][i - 1];
        }
      }
    }
  }

  function HexDigit(n: nat): (c: char)
    requires n < 16
    ensures '0' <= c <= '9' || 'a' <= c <= 'f'
  {
    if n < 10 then ('0' as int + n) as char else ('a' as int + n - 10) as char
  }

  /** The value of one hex digit byte of either case, or None for any other byte. */
  function HexValue(b: byte): (v: Option<nat>)
    ensures v.Some? <==> ('0' as int <= b <= '9' as int || 'a' as int <= b <= 'f' as int || 'A' as int <= b <= 'F' as int)
    ensures v.Some? ==> v.value < 16
  {
    if '0' as int <= b <= '9' as int then Some(b - '0' as int)
    else if 'a' as int <= b <= 'f' as int then Some(b - 'a' as int + 10)
    else if 'A' as int <= b <= 'F' as int then Some(b - 'A' as int + 10)
    else None
  }

  /** The byte written by two hex digits, high digit first. */
  function HexPair(hi: byte, lo: byte): (r: Option<byte>)
    ensures r.Some? <==> HexValue(hi).Some? && HexValue(lo).Some?
    ensures r.Some? ==> r.value / 16 == HexValue(hi).value && r.value % 16 == HexValue(lo).value
  {
    match (HexValue(hi), HexValue(lo))
    case (Some(h), Some(l)) => Some(h * 16 + l)
    case _ => None
  }

  lemma HexPairOfDigits(b: byte)
    ensures HexPair(HexDigit(b / 16) as int, HexDigit(b % 16) as int) == Some(b)
  {
  }

  /** Dash positions of the 36-character form. */
  predicate IsDash(k: int) {
    k == 8 || k == 13 || k == 18 || k == 23
  }

  /** Position, in the 36-character form, of the high hex digit of byte i. */
  function Offset(i: nat): (k: nat)
    requires i < 16
    ensures k + 1 < 36 && !IsDash(k) && !IsDash(k + 1)
  {
    if i < 4 then 2 * i
    else if i < 6 then 2 * i + 1
    else if i < 8 then 2 * i + 2
    else if i < 10 then 2 * i + 3
    else 2 * i + 4
  }

  /** The byte whose digit stands at position k of the 36-character form. */
  function ByteAt(k: nat): (i: nat)
    requires k < 36 && !IsDash(k)
    ensures i < 16 && (k == Offset(i) || k == Offset(i) + 1)
  {
    if k < 8 then k / 2
    else if k < 13 then (k - 1) / 2
    else if k < 18 then (k - 2) / 2
    else if k < 23 then (k - 3) / 2
    else (k - 4) / 2
  }

  /** Character k of the canonical form: a dash, or the high or low digit of the byte written there. */
  function FormatChar(u: UUID, k: nat): (c: char)
    requires k < 36
    ensures IsDash(k) <==> c == '-'
    ensures !IsDash(k) ==> c == HexDigit(if k == Offset(ByteAt(k)) then u[ByteAt(k)] / 16 else u[ByteAt(k)] % 16)
  {
    if IsDash(k) then '-'
    else
      var i := ByteAt(k);
      if k == Offset(i) then HexDigit(u[i] / 16) else HexDigit(u[i] % 16)
  }

  /** `id.String()`: the canonical 36-character text form, all ASCII. */
  function Format(u: UUID): (s: string)
    ensures |s| == 36 && IsAscii(s)
  {
    seq(36, k requires 0 <= k < 36 => FormatChar(u, k))
  }

  /** The 16 bytes written as digit pairs (contiguous when raw, else dashed); InvalidFormat if a pair is not hex. */
  function ParseDigits(b: seq<byte>, raw: bool): (r: Result<UUID>)
    requires if raw then |b| >= 32 else |b| >= 36
    ensures r.Err? <==> exists i :: 0 <= i < 16 && PairAt(b, raw, i).None?
    ensures r.Err? ==> r.error == InvalidFormat
    ensures r.Ok? ==> forall i :: 0 <= i < 16 ==> PairAt(b, raw, i) == Some(r.value[i])
  {
    if exists i :: 0 <= i < 16 && PairAt(b, raw, i).None? then Err(InvalidFormat)
    else Ok(seq(16, i requires 0 <= i < 16 => PairAt(b, raw, i).value))
  }

  /** The value of the digit pair for byte i: at 2i when raw, else at its place in the dashed layout. */
  function PairAt(b: seq<byte>, raw: bool, i: nat): (r: Option<byte>)
    requires i < 16
    requires if raw then |b| >= 32 else |b| >= 36
    ensures var k := if raw then 2 * i else Offset(i); r == HexPair(b[k], b[k + 1])
  {
    var k := if raw then 2 * i else Offset(i);
    HexPair(b[k], b[k + 1])
  }

  const Dash: byte := '-' as int

  /** The dashed form, read from the first 36 bytes of b. */
  function ParseDashed(b: seq<byte>): (r: Result<UUID>)
    requires |b| >= 36
    ensures r.Ok? ==> b[8] == Dash && b[13] == Dash && b[18] == Dash && b[23] == Dash
    ensures r.Ok? ==> forall i :: 0 <= i < 16 ==> PairAt(b, false, i) == Some(r.value[i])
    ensures r.Err? ==> r.error == InvalidFormat
  {
    if b[8] != Dash || b[13] != Dash || b[18] != Dash || b[23] != Dash then Err(InvalidFormat)
    else ParseDigits(b, false)
  }

  function LowerAscii(c: char): (l: char) {
    if 'A' <= c <= 'Z' then (c as int + 32) as char else c
  }

  function LowerByte(x: byte): (l: byte) {
    if 'A' as int <= x <= 'Z' as int then x + 32 else x
  }

  /** The bytes of "urn:uuid:". */
  const UrnPrefix: seq<byte> := [117, 114, 110, 58, 117, 117, 105, 100, 58]

  /**
   * `strings.EqualFold` against the ASCII prefix "urn:uuid:". Folding ASCII letters byte by byte
   * decides it exactly: a non-ASCII character in 9 bytes leaves fewer than 9 characters to match.
   */
  predicate EqualFold(a: seq<byte>, b: seq<byte>) {
    |a| == |b| && forall i :: 0 <= i < |a| ==> LowerByte(a[i]) == LowerByte(b[i])
  }

  /**
   * `uuid.Parse`, on the bytes of the text. The 38-byte form only drops its first byte: the
   * closing brace is not checked, as in the library.
   */
  function ParseBytes(b: seq<byte>): (r: Result<UUID>)
    ensures r.Err? ==> r.error.FromParse()
    ensures r.Err? && r.error.InvalidLength? <==> |b| !in {32, 36, 38, 45}
    ensures |b| !in {32, 36, 38, 45} ==> r == Err(InvalidLength(|b|))
    ensures r.Err? && r.error.InvalidUrnPrefix? ==> |b| == 45 && r.error.prefix == b[..9] && !EqualFold(b[..9], UrnPrefix)
  {
    if |b| == 36 then ParseDashed(b)
    else if |b| == 45 then
      if !EqualFold(b[..9], UrnPrefix) then Err(InvalidUrnPrefix(b[..9])) else ParseDashed(b[9..])
    else if |b| == 38 then ParseDashed(b[1..])
    else if |b| == 32 then ParseDigits(b, true)
    else Err(InvalidLength(|b|))
  }

  /** `uuid.Parse(s)`: the length that decides the layout, and that an error reports, is the UTF-8 byte count. */
  function Parse(s: string): (r: Result<UUID>)
    ensures r.Err? ==> r.error.FromParse()
    ensures r.Err? && r.error.InvalidLength? <==> |Utf8(s)| !in {32, 36, 38, 45}
    ensures |Utf8(s)| !in {32, 36, 38, 45} ==> r == Err(InvalidLength(|Utf8(s)|))
  {
    ParseBytes(Utf8(s))
  }

  /** A 36-byte text with dashes in place whose digit pairs give the bytes of u parses to u. */
  lemma ParseDashedOk(b: seq<byte>, u: UUID)
    requires |b| == 36 && b[8] == Dash && b[13] == Dash && b[18] == Dash && b[23] == Dash
    requires forall i :: 0 <= i < 16 ==> PairAt(b, false, i) == Some(u[i])
    ensures ParseBytes(b) == Ok(u)
  {
    assert !(exists i :: 0 <= i < 16 && PairAt(b, false, i).None?);
    var v := seq(16, i requires 0 <= i < 16 => PairAt(b, false, i).value);
    assert v == u;
  }

  /** The digit pair written for byte i of u reads back as that byte. */
  lemma FormatPair(u: UUID, b: seq<byte>, i: nat)
    requires |b| == 36 && i < 16
    requires forall k :: 0 <= k < 36 ==> b[k] == Format(u)[k] as int
    ensures PairAt(b, false, i) == Some(u[i])
  {
    var k := Offset(i);
    assert ByteAt(k) == i && ByteAt(k + 1) == i;
    assert b[k] == FormatChar(u, k) as int && b[k + 1] == FormatChar(u, k + 1) as int;
    HexPairOfDigits(u[i]);
  }

  /** The text form parses back to the identifier it was written from. */
  lemma ParseFormat(u: UUID)
    ensures Parse(Format(u)) == Ok(u)
  {
    var s := Format(u);
    Utf8Ascii(s);
    var b := Utf8(s);
    forall i | 0 <= i < 16
      ensures PairAt(b, false, i) == Some(u[i])
    {
      FormatPair(u, b, i);
    }
    assert s[8] == '-' && s[13] == '-' && s[18] == '-' && s[23] == '-';
    ParseDashedOk(b, u);
  }

  /** Distinct identifiers have distinct text forms, so they never share a point-index key. */
  lemma FormatInjective(u: UUID, v: UUID)
    requires Format(u) == Format(v)
    ensures u == v
  {
    ParseFormat(u);
    ParseFormat(v);
  }

  /** In a 36-byte text that parses, a byte at a dash position is a dash and every other one is a hex digit. */
  lemma DashedBytes(b: seq<byte>, u: UUID, k: nat)
    requires |b| == 36 && ParseBytes(b) == Ok(u) && k < 36
    ensures IsDash(k) ==> b[k] == Dash
    ensures !IsDash(k) ==> HexValue(b[k]).Some?
    ensures !IsDash(k) ==> LowerByte(b[k]) == HexDigit(if k == Offset(ByteAt(k)) then u[ByteAt(k)] / 16 else u[ByteAt(k)] % 16) as int
  {
    if !IsDash(k) {
      var i := ByteAt(k);
      assert PairAt(b, false, i) == Some(u[i]);
      HexDigitLower(b[Offset(i)], b[Offset(i) + 1], u[i]);
    }
  }

  /** Every text of 36 bytes that parses is the canonical form up to letter case, so it has 36 ASCII characters. */
  lemma ParseDashedFormat(s: string, u: UUID)
    requires |Utf8(s)| == 36 && Parse(s) == Ok(u)
    ensures |s| == 36
    ensures forall k :: 0 <= k < 36 ==> LowerAscii(s[k]) == Format(u)[k]
  {
    var b := Utf8(s);
    forall j | 0 <= j < 36 ensures b[j] < 0x80 {
      DashedBytes(b, u, j);
    }
    Utf8OnlyAsciiBytes(s);
    Utf8Ascii(s);
    forall k | 0 <= k < 36
      ensures LowerAscii(s[k]) == Format(u)[k]
    {
      DashedBytes(b, u, k);
      assert b[k] == s[k] as int;
    }
  }

  lemma HexDigitLower(hi: byte, lo: byte, b: byte)
    requires HexPair(hi, lo) == Some(b)
    ensures LowerByte(hi) == HexDigit(b / 16) as int && LowerByte(lo) == HexDigit(b % 16) as int
  {
  }

  /** A leading two-byte character makes a braced form 39 bytes long, which the library reports as a length error. */
  lemma NonAsciiCounted(u: UUID)
    ensures |['é'] + Format(u) + ['}']| == 38
    ensures Parse(['é'] + Format(u) + ['}']) == Err(InvalidLength(39))
  {
    var s := Format(u);
    Utf8Ascii(s);
    Utf8Append(['é'], s);
    Utf8Append(['é'] + s, ['}']);
    assert |Utf8(['é'])| == 2;
    assert |Utf8(['}'])| == 1;
  }
}
