/** `api.DataToProto` and `api.ProtoToData`: the record and its wire form `pb.Data`. */
module DataMapping {
  import opened GoTypes
  import opened Errors
  import opened Uuid
  import opened Models

  /** `pb.Data`: the identifier as text and the summary narrowed to 32 bits. */
  datatype ProtoData = ProtoData(id: string, timestamp: int64, max: int32)

  /** The record after one trip through the wire form: `max` keeps only its low 32 bits. */
  function Narrowed(d: Data): (n: Data) {
    Data(d.id, d.timestamp, ToInt32(d.max))
  }

  function DataToProto(data: Option<Data>): (r: (Option<ProtoData>, Option<Error>))
    ensures data.None? <==> r.1.Some?
    ensures data.None? ==> r == (None, Some(DataNil)) && r.1.value.Message() == "data is nil"
    ensures data.Some? ==>
              && r.0.Some? && r.0.value.id == Format(data.value.id)
              && r.0.value.timestamp == data.value.timestamp
              && (r.0.value.max == data.value.max <==> FitsInt32(data.value.max))
  {
    match data
    case None => (None, Some(DataNil))
    case Some(d) => (Some(ProtoData(Format(d.id), d.timestamp, ToInt32(d.max))), None)
  }

  /**
   * A record comes back whenever the input is not nil, even when the identifier does not parse;
   * in that case it carries the parse error and a nil identifier.
   */
  function ProtoToData(pbData: Option<ProtoData>): (r: (Option<Data>, Option<Error>))
    ensures pbData.None? ==> r == (None, Some(ProtoNil)) && r.1.value.Message() == "pb.Data is nil"
    ensures pbData.Some? ==>
              && r.0.Some?
              && r.0.value.timestamp == pbData.value.timestamp && r.0.value.max == pbData.value.max
              && (r.1.None? <==> Parse(pbData.value.id).Ok?)
              && (r.1.None? ==> r.0.value.id == Parse(pbData.value.id).value)
              && (r.1.Some? ==> r.1 == Some(Parse(pbData.value.id).error) && r.0.value.id == Nil)
  {
    match pbData
    case None => (None, Some(ProtoNil))
    case Some(p) =>
      var parsed := Parse(p.id);
      if parsed.Ok? then (Some(Data(parsed.value, p.timestamp, p.max)), None)
      else (Some(Data(Nil, p.timestamp, p.max)), Some(parsed.error))
  }

  /** Converting to the wire form and back gives the record with its summary narrowed. */
  lemma RoundTrip(d: Data)
    ensures DataToProto(Some(d)).0.Some?
    ensures ProtoToData(DataToProto(Some(d)).0) == (Some(Narrowed(d)), None)
  {
    ParseFormat(d.id);
  }

  /** The round trip is exact precisely when the summary fits in 32 bits. */
  lemma RoundTripExact(d: Data)
    ensures ProtoToData(DataToProto(Some(d)).0) == (Some(d), None) <==> FitsInt32(d.max)
  {
    RoundTrip(d);
  }

  /**
   * Converting from the wire form and back gives the same wire form, up to letter case of the id,
   * when the id is a dashed form of 36 bytes (which then has 36 characters).
   */
  lemma RoundTripFromWire(p: ProtoData)
    requires |Utf8(p.id)| == 36 && Parse(p.id).Ok?
    ensures ProtoToData(Some(p)).1 == None
    ensures |p.id| == 36
    ensures var back := DataToProto(ProtoToData(Some(p)).0).0.value;
      back.timestamp == p.timestamp && back.max == p.max
      && forall k :: 0 <= k < 36 ==> back.id[k] == LowerAscii(p.id[k])
  {
    ParseDashedFormat(p.id, Parse(p.id).value);
  }

  /** The int32 extremes of the unit tests survive the wire form unchanged. */
  lemma Int32Extremes(u: UUID, ts: int64)
    ensures ProtoToData(Some(ProtoData(Format(u), ts, -Two31))) == (Some(Data(u, ts, -Two31)), None)
    ensures ProtoToData(Some(ProtoData(Format(u), ts, Two31 - 1))) == (Some(Data(u, ts, Two31 - 1)), None)
  {
    ParseFormat(u);
  }

  /** Narrowing is visible: 2^31 comes back as -2^31. */
  lemma NarrowingWraps(u: UUID, ts: int64)
    ensures ProtoToData(DataToProto(Some(Data(u, ts, Two31))).0).0 == Some(Data(u, ts, -Two31))
  {
    RoundTrip(Data(u, ts, Two31));
  }
}
