/**
 * `repository.RedisRepository`: the storage engine. Every record is serialised once and written
 * to two indexes: the order index (a sorted set scored by timestamp, no expiry) and the point
 * index (text identifier to bytes, expiring TtlSec seconds after the write). The store's
 * failures and its clock are not modelled as behaviour: each operation receives them as an Env.
 */
module RedisRepository {
  import opened GoTypes
  import opened Errors
  import opened Uuid
  import opened Models
  import opened DataMapping
  import opened WireCodec
  import SortedSet

  type Entry = SortedSet.Entry

  /** Expiry of the point index, in seconds. */
  const TtlSec: int := 500

  /** The clock reading (seconds) when an operation runs, and which store commands fail then. */
  datatype Env = Env(now: int, failing: set<Command>)

  /** The environment in which every command succeeds. */
  function Healthy(now: int): (env: Env) {
    Env(now, {})
  }

  /** A point-index value and the instant from which it has expired. */
  datatype Point = Point(payload: Bytes, expiresAt: int)

  /** Both indexes. */
  datatype Store = Store(order: seq<Entry>, points: map<string, Point>)

  const Empty: Store := Store([], map[])

  /** Every order-index entry decoding to a wire form is scored by that wire form's timestamp. */
  ghost predicate ScoresMatch(order: seq<Entry>) {
    forall e :: e in order && Unmarshal(e.member).Ok? ==> e.score == Unmarshal(e.member).value.timestamp
  }

  /**
   * The invariant every Put maintains: the order index is a valid sorted set, and each entry that
   * decodes is scored by its timestamp, because Put writes the score from the record it encodes.
   */
  ghost predicate ValidStore(s: Store) {
    SortedSet.Valid(s.order) && ScoresMatch(s.order)
  }

  /** One matched order-index entry as a record: RepoCorrupt when its bytes do not unmarshal. */
  function DecodeEntry(e: Entry): (r: Result<Data>)
    ensures Unmarshal(e.member).Err? ==> r == Err(RepoCorrupt)
    ensures r.Err? ==> r.error == RepoCorrupt || r.error.FromParse()
    ensures Unmarshal(e.member).Ok? ==> (r.Ok? <==> Parse(Unmarshal(e.member).value.id).Ok?)
    ensures Unmarshal(e.member).Ok? && Parse(Unmarshal(e.member).value.id).Err? ==>
              r == Err(Parse(Unmarshal(e.member).value.id).error)
    ensures r.Ok? ==> r.value.id == Parse(Unmarshal(e.member).value.id).value
    ensures r.Ok? ==> Unmarshal(e.member).Ok? && r.value.timestamp == Unmarshal(e.member).value.timestamp
  {
    match Unmarshal(e.member)
    case Err(_) => Err(RepoCorrupt)
    case Ok(pb) =>
      var conv := ProtoToData(Some(pb));
      if conv.1.Some? then Err(conv.1.value) else Ok(conv.0.value)
  }

  /** The matched entries decoded in order, stopping at the first that does not decode. */
  function DecodeHits(hits: seq<Entry>): (r: Result<seq<Data>>)
    ensures r.Err? ==> r.error == RepoCorrupt || r.error.FromParse()
  {
    if |hits| == 0 then Ok([])
    else
      match DecodeHits(hits[..|hits| - 1])
      case Err(e) => Err(e)
      case Ok(ds) =>
        match DecodeEntry(hits[|hits| - 1])
        case Err(e) => Err(e)
        case Ok(d) => Ok(ds + [d])
  }

  /** `Put`: on success the order index holds the record's bytes and the point index maps its id to them. */
  function PutSpec(s: Store, data: Option<Data>, env: Env): (r: (Store, Option<Error>))
    requires ValidStore(s)
    ensures ValidStore(r.0)
    ensures data.None? ==> r == (s, Some(DataNil))
    ensures r.1.None? <==> data.Some? && ZAdd !in env.failing && Set !in env.failing
    ensures data.Some? && ZAdd in env.failing ==> r == (s, Some(Backend(ZAdd)))
    ensures r.0.points != s.points ==> r.1.None?
    ensures data.Some? && ZAdd !in env.failing ==>
              && forall x :: x in r.0.order <==>
                   || x == SortedSet.Entry(data.value.timestamp, Marshal(DataToProto(data).0.value))
                   || (x in s.order && x.member != Marshal(DataToProto(data).0.value))
    ensures r.1.None? ==>
              r.0.points == s.points[Format(data.value.id) := Point(Marshal(DataToProto(data).0.value), env.now + TtlSec)]
  {
    var (pbData, err) := DataToProto(data);
    if err.Some? then (s, err)
    else
      var pb := pbData.value;
      var bytes := Marshal(pb);
      if ZAdd in env.failing then (s, Some(Backend(ZAdd)))
      else
        var entry := SortedSet.Entry(pb.timestamp, bytes);
        UnmarshalMarshal(pb);
        var order := SortedSet.ZAdd(s.order, entry);
        var s1 := Store(order, s.points);
        if Set in env.failing then (s1, Some(Backend(Set)))
        else (Store(order, s.points[pb.id := Point(bytes, env.now + TtlSec)]), None)
  }

  /** `GetByID`: the point index only; an absent or expired key is RepoNotFound. */
  function GetSpec(s: Store, id: UUID, env: Env): (r: (Option<Data>, Option<Error>))
    ensures r.0.Some? || r.1.Some?
    ensures r.1.Some? ==> r.1.value in {Backend(Get), RepoNotFound, Undecodable} || r.1.value.FromParse()
    ensures Get in env.failing ==> r == (None, Some(Backend(Get)))
    ensures Get !in env.failing && Format(id) !in s.points ==> r == (None, Some(RepoNotFound))
    ensures Get !in env.failing && Format(id) in s.points && env.now >= s.points[Format(id)].expiresAt ==>
              r == (None, Some(RepoNotFound))
    ensures Get !in env.failing && Format(id) in s.points && env.now < s.points[Format(id)].expiresAt ==>
              && (Unmarshal(s.points[Format(id)].payload).Err? ==> r == (None, Some(Undecodable)))
              && (Unmarshal(s.points[Format(id)].payload).Ok? ==> r == ProtoToData(Some(Unmarshal(s.points[Format(id)].payload).value)))
  {
    var key := Format(id);
    if Get in env.failing then (None, Some(Backend(Get)))
    else if key !in s.points || env.now >= s.points[key].expiresAt then (None, Some(RepoNotFound))
    else
      match Unmarshal(s.points[key].payload)
      case Err(e) => (None, Some(e))
      case Ok(pb) => ProtoToData(Some(pb))
  }

  /** `ListByPeriod`: the order index only, scanned over the closed interval [from, to]. */
  function ListSpec(s: Store, from: int64, to: int64, env: Env): (r: (Option<seq<Data>>, Option<Error>))
    ensures r.0.Some? <==> r.1.None?
    ensures r.0.Some? ==> |r.0.value| > 0
    ensures r.1.Some? ==> r.1.value in {Backend(ZRangeByScore), RepoNotFound, RepoCorrupt} || r.1.value.FromParse()
    ensures from > to && ZRangeByScore !in env.failing ==> r == (None, Some(RepoNotFound))
  {
    if ZRangeByScore in env.failing then (None, Some(Backend(ZRangeByScore)))
    else
      var hits := SortedSet.RangeByScore(s.order, from, to);
      if |hits| == 0 then (None, Some(RepoNotFound))
      else
        match DecodeHits(hits)
        case Ok(ds) => (Some(ds), None)
        case Err(e) => (None, Some(e))
  }

  /** A store connection: the two indexes are fields that Put reassigns. */
  class RedisRepository {
    var order: seq<Entry>
    var points: map<string, Point>

    function State(): (st: Store)
      reads this
    {
      Store(order, points)
    }

    ghost predicate Valid()
      reads this
    {
      ValidStore(State())
    }

    /** A freshly opened, empty store. */
    constructor ()
      ensures Valid() && State() == Empty
    {
      order := [];
      points := map[];
    }

    method Put(data: Option<Data>, env: Env) returns (err: Option<Error>)
      requires Valid()
      modifies this
      ensures Valid()
      ensures (State(), err) == PutSpec(old(State()), data, env)
    {
      var (pbData, convErr) := DataToProto(data);
      if convErr.Some? {
        return convErr;
      }
      var pb := pbData.value;
      var bytes := Marshal(pb);
      if ZAdd in env.failing {
        return Some(Backend(ZAdd));
      }
      UnmarshalMarshal(pb);
      order := SortedSet.ZAdd(order, SortedSet.Entry(pb.timestamp, bytes));
      if Set in env.failing {
        return Some(Backend(Set));
      }
      points := points[pb.id := Point(bytes, env.now + TtlSec)];
      return None;
    }

    method GetByID(id: UUID, env: Env) returns (data: Option<Data>, err: Option<Error>)
      ensures (data, err) == GetSpec(State(), id, env)
    {
      var key := Format(id);
      if Get in env.failing {
        return None, Some(Backend(Get));
      }
      if key !in points || env.now >= points[key].expiresAt {
        return None, Some(RepoNotFound);
      }
      var umData := Unmarshal(points[key].payload);
      if umData.Err? {
        return None, Some(umData.error);
      }
      data, err := ProtoToData(Some(umData.value)).0, ProtoToData(Some(umData.value)).1;
    }

    method ListByPeriod(from: int64, to: int64, env: Env) returns (res: Option<seq<Data>>, err: Option<Error>)
      ensures (res, err) == ListSpec(State(), from, to, env)
    {
      if ZRangeByScore in env.failing {
        return None, Some(Backend(ZRangeByScore));
      }
      var results := SortedSet.RangeByScore(order, from, to);
      if |results| == 0 {
        return None, Some(RepoNotFound);
      }
      var acc: seq<Data> := [];
      for i := 0 to |results|
        invariant DecodeHits(results[..i]) == Ok(acc)
      {
        assert results[..i + 1][..i] == results[..i];
        var umData := Unmarshal(results[i].member);
        if umData.Err? {
          DecodeHitsStopsAtError(results, i + 1);
          return None, Some(RepoCorrupt);
        }
        var (data, convErr) := ProtoToData(Some(umData.value));
        if convErr.Some? {
          DecodeHitsStopsAtError(results, i + 1);
          return None, convErr;
        }
        acc := acc + [data.value];
      }
      assert results[..|results|] == results;
      return Some(acc), None;
    }
  }

  /** An error in a prefix of the matched entries is the error of the whole scan. */
  lemma {:induction false} DecodeHitsStopsAtError(hits: seq<Entry>, i: nat)
    requires i <= |hits| && DecodeHits(hits[..i]).Err?
    ensures DecodeHits(hits) == DecodeHits(hits[..i])
    decreases |hits|
  {
    if i < |hits| {
      var init := hits[..|hits| - 1];
      assert init[..i] == hits[..i];
      DecodeHitsStopsAtError(init, i);
    } else {
      assert hits[..i] == hits;
    }
  }

  /** The scan succeeds exactly when every matched entry decodes. */
  lemma {:induction false} DecodeHitsAllOk(hits: seq<Entry>)
    ensures DecodeHits(hits).Ok? <==> forall i :: 0 <= i < |hits| ==> DecodeEntry(hits[i]).Ok?
  {
    if |hits| > 0 {
      var init := hits[..|hits| - 1];
      DecodeHitsAllOk(init);
      assert forall i :: 0 <= i < |init| ==> init[i] == hits[i];
      if DecodeHits(init).Err? {
        var k :| 0 <= k < |init| && DecodeEntry(init[k]).Err?;
        assert DecodeEntry(hits[k]).Err?;
      }
    }
  }

  /** A successful scan yields one record per matched entry, in order. */
  lemma {:induction false} DecodeHitsValues(hits: seq<Entry>)
    requires DecodeHits(hits).Ok?
    ensures |DecodeHits(hits).value| == |hits|
    ensures forall i :: 0 <= i < |hits| ==> DecodeEntry(hits[i]) == Ok(DecodeHits(hits).value[i])
  {
    if |hits| > 0 {
      var init, last := hits[..|hits| - 1], hits[|hits| - 1];
      DecodeHitsValues(init);
      var ds := DecodeHits(init).value;
      assert DecodeHits(hits) == Ok(ds + [DecodeEntry(last).value]);
      forall i | 0 <= i < |hits| ensures DecodeEntry(hits[i]) == Ok(DecodeHits(hits).value[i]) {
        if i < |init| {
          assert init[i] == hits[i];
        }
      }
    }
  }

  /** The scan succeeds exactly when every matched entry decodes, and then yields them all, in order. */
  lemma DecodeHitsOk(hits: seq<Entry>)
    ensures DecodeHits(hits).Ok? <==> forall i :: 0 <= i < |hits| ==> DecodeEntry(hits[i]).Ok?
    ensures DecodeHits(hits).Ok? ==>
              && |DecodeHits(hits).value| == |hits|
              && forall i :: 0 <= i < |hits| ==> DecodeHits(hits).value[i] == DecodeEntry(hits[i]).value
  {
    DecodeHitsAllOk(hits);
    if DecodeHits(hits).Ok? {
      DecodeHitsValues(hits);
    }
  }

  /** A failed scan reports the error of the first matched entry that does not decode. */
  lemma {:induction false} DecodeHitsErr(hits: seq<Entry>)
    requires DecodeHits(hits).Err?
    ensures exists i ::
              && 0 <= i < |hits|
              && DecodeEntry(hits[i]) == Err(DecodeHits(hits).error)
              && forall j :: 0 <= j < i ==> DecodeEntry(hits[j]).Ok?
  {
    var init := hits[..|hits| - 1];
    assert forall j :: 0 <= j < |init| ==> init[j] == hits[j];
    if DecodeHits(init).Err? {
      DecodeHitsErr(init);
      var i :| 0 <= i < |init| && DecodeEntry(init[i]) == Err(DecodeHits(init).error)
        && forall j :: 0 <= j < i ==> DecodeEntry(init[j]).Ok?;
      assert DecodeEntry(hits[i]) == Err(DecodeHits(hits).error);
    } else {
      DecodeHitsOk(init);
      assert DecodeEntry(hits[|hits| - 1]) == Err(DecodeHits(hits).error);
    }
  }
}
