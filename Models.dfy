/** The input batch (`models.Pack`), the stored record (`models.Data`) and the reducer between them. */
module Models {
  import opened GoTypes
  import opened Errors
  import opened Uuid
  import SliceHelper

  /** One externally produced batch: identity, capture timestamp and the raw integers. */
  datatype Pack = Pack(id: UUID, timestamp: int64, data: seq<int64>)

  /** The derived record that is stored and served. */
  datatype Data = Data(id: UUID, timestamp: int64, max: int64)

  /**
   * `MapPackToData`: the record always comes back (Go returns its address in every case),
   * together with GetMaxValue's error; on an empty batch its `max` is 0.
   */
  function MapPackToData(pack: Pack): (r: (Data, Option<Error>))
    ensures r.0.id == pack.id && r.0.timestamp == pack.timestamp
    ensures r.1.Some? <==> |pack.data| == 0
    ensures r.1.Some? ==> r.1 == Some(SliceEmpty) && r.0.max == 0
    ensures r.1.None? ==> r.0.max in pack.data && forall i :: 0 <= i < |pack.data| ==> pack.data[i] <= r.0.max
  {
    var (m, err) := SliceHelper.MaxValue(pack.data);
    (Data(pack.id, pack.timestamp, m), err)
  }
}
