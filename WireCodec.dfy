/**
 * The serialised form of `pb.Data` kept in both indexes. The service uses protobuf's
 * `proto.Marshal`/`proto.Unmarshal`; this model uses a fixed layout with the same two properties
 * the store relies on: marshalled data unmarshals to itself, and arbitrary bytes may not unmarshal.
 * Layout: timestamp in 8 bytes and max in 4 bytes (little-endian two's complement), then
 * 3 bytes (little-endian code point) per character of the id.
 */
module WireCodec {
  import opened GoTypes
  import opened Errors
  import opened DataMapping

  type Bytes = seq<byte>

  function Pow256(k: nat): (p: nat)
    ensures p > 0
  {
    if k == 0 then 1 else 256 * Pow256(k - 1)
  }

  /** n in k little-endian bytes. */
  function EncodeLE(n: nat, k: nat): (bs: Bytes)
    requires n < Pow256(k)
    ensures |bs| == k
  {
    if k == 0 then [] else [n % 256] + EncodeLE(n / 256, k - 1)
  }

  function DecodeLE(bs: Bytes): (n: nat)
    ensures n < Pow256(|bs|)
  {
    if |bs| == 0 then 0 else bs[0] + 256 * DecodeLE(bs[1..])
  }

  lemma {:induction false} DecodeEncodeLE(n: nat, k: nat)
    requires n < Pow256(k)
    ensures DecodeLE(EncodeLE(n, k)) == n
  {
    if k > 0 {
      DecodeEncodeLE(n / 256, k - 1);
      assert EncodeLE(n, k)[1..] == EncodeLE(n / 256, k - 1);
    }
  }

  lemma Pow256Values()
    ensures Pow256(3) == 0x100_0000 && Pow256(4) == Two32 && Pow256(8) == Two64
  {
  }

  function Unsigned64(x: int64): (n: nat)
    ensures n < Two64
  {
    if x < 0 then x + Two64 else x
  }

  function Signed64(n: nat): int64
    requires n < Two64
  {
    if n >= Two63 then n - Two64 else n
  }

  function Unsigned32(x: int32): (n: nat)
    ensures n < Two32
  {
    if x < 0 then x + Two32 else x
  }

  function Signed32(n: nat): int32
    requires n < Two32
  {
    if n >= Two31 then n - Two32 else n
  }

  predicate IsScalar(n: nat) {
    n < 0xD800 || (0xE000 <= n < 0x11_0000)
  }

  function EncodeChars(s: string): (bs: Bytes)
    ensures |bs| == 3 * |s|
  {
    if |s| == 0 then []
    else
      Pow256Values();
      EncodeLE(s[0] as int, 3) + EncodeChars(s[1..])
  }

  /** None when some 3-byte group is not a Unicode scalar value. */
  function DecodeChars(bs: Bytes): (r: Option<string>)
    requires |bs| % 3 == 0
  {
    if |bs| == 0 then Some("")
    else
      var c := DecodeLE(bs[..3]);
      if !IsScalar(c) then None
      else
        match DecodeChars(bs[3..])
        case None => None
        case Some(rest) => Some([c as char] + rest)
  }

  lemma {:induction false} DecodeEncodeChars(s: string)
    ensures DecodeChars(EncodeChars(s)) == Some(s)
  {
    if |s| > 0 {
      Pow256Values();
      var bs := EncodeChars(s);
      assert bs[..3] == EncodeLE(s[0] as int, 3);
      assert bs[3..] == EncodeChars(s[1..]);
      DecodeEncodeLE(s[0] as int, 3);
      DecodeEncodeChars(s[1..]);
      var c := DecodeLE(bs[..3]);
      assert c == s[0] as int;
      assert IsScalar(c);
      assert c as char == s[0];
      assert [s[0]] + s[1..] == s;
    }
  }

  /** Stand-in for `proto.Marshal(pbData)`: total, as it is for the identifiers the service writes. */
  function Marshal(p: ProtoData): (bs: Bytes)
    ensures |bs| == 12 + 3 * |p.id|
  {
    Pow256Values();
    EncodeLE(Unsigned64(p.timestamp), 8) + EncodeLE(Unsigned32(p.max), 4) + EncodeChars(p.id)
  }

  /** Stand-in for `proto.Unmarshal`: Undecodable for bytes that are not a marshalled ProtoData. */
  function Unmarshal(bs: Bytes): (r: Result<ProtoData>)
    ensures r.Err? ==> r.error == Undecodable
    ensures |bs| < 12 ==> r.Err?
  {
    if |bs| < 12 || (|bs| - 12) % 3 != 0 then Err(Undecodable)
    else
      Pow256Values();
      var ts := Signed64(DecodeLE(bs[..8]));
      var max := Signed32(DecodeLE(bs[8..12]));
      match DecodeChars(bs[12..])
      case None => Err(Undecodable)
      case Some(id) => Ok(ProtoData(id, ts, max))
  }

  /** What is marshalled unmarshals to itself. */
  lemma UnmarshalMarshal(p: ProtoData)
    ensures Unmarshal(Marshal(p)) == Ok(p)
  {
    Pow256Values();
    var a, b, c := EncodeLE(Unsigned64(p.timestamp), 8), EncodeLE(Unsigned32(p.max), 4), EncodeChars(p.id);
    var bs := Marshal(p);
    assert bs[..8] == a && bs[8..12] == b && bs[12..] == c;
    DecodeEncodeLE(Unsigned64(p.timestamp), 8);
    DecodeEncodeLE(Unsigned32(p.max), 4);
    DecodeEncodeChars(p.id);
  }

  /** Different wire forms never share bytes, so re-adding identical bytes is re-adding the same record. */
  lemma MarshalInjective(p: ProtoData, q: ProtoData)
    requires Marshal(p) == Marshal(q)
    ensures p == q
  {
    UnmarshalMarshal(p);
    UnmarshalMarshal(q);
  }
}
