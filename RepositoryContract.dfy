/**
 * The documented contract of the `models.Repository` interface (Put overwrites by id, GetByID
 * finds what was put or nothing, ListByPeriod is inclusive of both bounds), stated and proved
 * about the RedisRepository operations, together with what that implementation adds: the two
 * indexes age differently, a re-put keeps the earlier order-index entry, and a bad entry aborts
 * the whole scan.
 */
module RepositoryContract {
  import opened GoTypes
  import opened Errors
  import opened Uuid
  import opened Models
  import opened DataMapping
  import opened WireCodec
  import SortedSet
  import opened RedisRepository

  /** The wire form Put writes for a record. */
  function WireOf(d: Data): (p: ProtoData)
    ensures p.id == Format(d.id) && p.timestamp == d.timestamp
    ensures ProtoToData(Some(p)) == (Some(Narrowed(d)), None)
  {
    RoundTrip(d);
    DataToProto(Some(d)).0.value
  }

  /** The order-index entry Put writes for a record; it decodes back to the narrowed record. */
  function EntryOf(d: Data): (e: Entry)
    ensures e.score == d.timestamp
    ensures DecodeEntry(e) == Ok(Narrowed(d))
  {
    UnmarshalMarshal(WireOf(d));
    SortedSet.Entry(d.timestamp, Marshal(WireOf(d)))
  }

  /** Two records have the same order-index entry exactly when they have the same wire form. */
  lemma EntryOfInjective(d1: Data, d2: Data)
    ensures EntryOf(d1).member == EntryOf(d2).member <==> Narrowed(d1) == Narrowed(d2)
  {
    if EntryOf(d1).member == EntryOf(d2).member {
      MarshalInjective(WireOf(d1), WireOf(d2));
    }
    if Narrowed(d1) == Narrowed(d2) {
      FormatInjective(d1.id, d2.id);
    }
  }

  /**
   * Every value in either index decodes to a record with a parsable identifier, and every
   * point-index value is stored under the key its own identifier gives.
   */
  ghost predicate WellFormed(s: Store) {
    && (forall e :: e in s.order ==> DecodeEntry(e).Ok?)
    && (forall k :: k in s.points ==>
          && Unmarshal(s.points[k].payload).Ok?
          && Unmarshal(s.points[k].payload).value.id == k
          && ProtoToData(Some(Unmarshal(s.points[k].payload).value)).1.None?)
  }

  lemma EmptyValid()
    ensures ValidStore(Empty) && WellFormed(Empty)
  {
  }

  /** Put keeps a well-formed store well-formed, whatever its outcome. */
  lemma PutPreservesWellFormed(s: Store, data: Option<Data>, env: Env)
    requires ValidStore(s) && WellFormed(s)
    ensures WellFormed(PutSpec(s, data, env).0)
  {
    if data.Some? {
      var d := data.value;
      var e := EntryOf(d);
      UnmarshalMarshal(WireOf(d));
    }
  }

  /** A sequence of writes, each with its own environment. */
  datatype Write = Write(data: Option<Data>, env: Env)

  function PutAll(s: Store, ws: seq<Write>): (r: Store)
    requires ValidStore(s)
    ensures ValidStore(r)
    decreases |ws|
  {
    if |ws| == 0 then s else PutAll(PutSpec(s, ws[0].data, ws[0].env).0, ws[1..])
  }

  /** Every store reachable from the empty one by Put calls is well-formed. */
  lemma {:induction false} PutAllWellFormed(s: Store, ws: seq<Write>)
    requires ValidStore(s) && WellFormed(s)
    ensures WellFormed(PutAll(s, ws))
    decreases |ws|
  {
    if |ws| > 0 {
      PutPreservesWellFormed(s, ws[0].data, ws[0].env);
      PutAllWellFormed(PutSpec(s, ws[0].data, ws[0].env).0, ws[1..]);
    }
  }

  /** After a successful Put, GetByID of the same id finds the record until it expires. */
  lemma PutThenGet(s: Store, d: Data, env: Env, env2: Env)
    requires ValidStore(s)
    requires ZAdd !in env.failing && Set !in env.failing
    requires Get !in env2.failing && env2.now < env.now + TtlSec
    ensures PutSpec(s, Some(d), env).1 == None
    ensures GetSpec(PutSpec(s, Some(d), env).0, d.id, env2) == (Some(Narrowed(d)), None)
    ensures FitsInt32(d.max) ==> GetSpec(PutSpec(s, Some(d), env).0, d.id, env2) == (Some(d), None)
  {
    UnmarshalMarshal(WireOf(d));
  }

  /** A Put leaves the lookup of every other id as it was, whatever its outcome. */
  lemma PutKeepsOthers(s: Store, data: Option<Data>, env: Env, id: UUID, env2: Env)
    requires ValidStore(s)
    requires data.None? || data.value.id != id
    ensures GetSpec(PutSpec(s, data, env).0, id, env2) == GetSpec(s, id, env2)
  {
    if data.Some? && Format(data.value.id) == Format(id) {
      FormatInjective(data.value.id, id);
    }
  }

  /** A second successful Put with the same id overwrites the first, as the interface promises. */
  lemma PutOverwrites(s: Store, d1: Data, d2: Data, env1: Env, env2: Env, env3: Env)
    requires ValidStore(s) && d1.id == d2.id
    requires ZAdd !in env2.failing && Set !in env2.failing
    requires Get !in env3.failing && env3.now < env2.now + TtlSec
    ensures GetSpec(PutSpec(PutSpec(s, Some(d1), env1).0, Some(d2), env2).0, d1.id, env3) == (Some(Narrowed(d2)), None)
  {
    PutThenGet(PutSpec(s, Some(d1), env1).0, d2, env2, env3);
  }

  lemma {:induction false} PutAllKeepsOthers(s: Store, ws: seq<Write>, id: UUID, env: Env)
    requires ValidStore(s)
    requires forall i :: 0 <= i < |ws| ==> ws[i].data.None? || ws[i].data.value.id != id
    ensures GetSpec(PutAll(s, ws), id, env) == GetSpec(s, id, env)
    decreases |ws|
  {
    if |ws| > 0 {
      PutKeepsOthers(s, ws[0].data, ws[0].env, id, env);
      PutAllKeepsOthers(PutSpec(s, ws[0].data, ws[0].env).0, ws[1..], id, env);
    }
  }

  /** An id that no Put ever carried is not found: GetByID yields no record. */
  lemma NeverPutNotFound(ws: seq<Write>, id: UUID, env: Env)
    requires Get !in env.failing
    requires forall i :: 0 <= i < |ws| ==> ws[i].data.None? || ws[i].data.value.id != id
    ensures GetSpec(PutAll(Empty, ws), id, env) == (None, Some(RepoNotFound))
  {
    PutAllKeepsOthers(Empty, ws, id, env);
  }

  /** In a well-formed store a lookup fails only when the key is absent or expired, or the command fails. */
  lemma GetWellFormed(s: Store, id: UUID, env: Env)
    requires WellFormed(s) && Get !in env.failing
    ensures GetSpec(s, id, env).1.None? || GetSpec(s, id, env).1 == Some(RepoNotFound)
  {
  }

  /** In a well-formed store a record found by GetByID carries the identifier it was looked up by. */
  lemma GetReturnsRequestedId(s: Store, id: UUID, env: Env)
    requires WellFormed(s)
    requires GetSpec(s, id, env).1.None?
    ensures GetSpec(s, id, env).0.Some? && GetSpec(s, id, env).0.value.id == id
  {
    ParseFormat(id);
  }

  /** A listing holds only records inside the closed interval, in ascending timestamp order. */
  lemma ListInRange(s: Store, from: int64, to: int64, env: Env)
    requires ValidStore(s)
    requires ListSpec(s, from, to, env).0.Some?
    ensures var ds := ListSpec(s, from, to, env).0.value;
      && (forall i :: 0 <= i < |ds| ==> from <= ds[i].timestamp <= to)
      && (forall i, j :: 0 <= i <= j < |ds| ==> ds[i].timestamp <= ds[j].timestamp)
  {
    var hits := SortedSet.RangeByScore(s.order, from, to);
    var ds := ListSpec(s, from, to, env).0.value;
    DecodeHitsOk(hits);
    assert forall i :: 0 <= i < |hits| ==> hits[i] in hits;
    forall i, j | 0 <= i <= j < |ds| ensures ds[i].timestamp <= ds[j].timestamp {
      SortedSet.SortedScores(hits, i, j);
    }
  }

  /** In a well-formed store a working scan fails only for an interval that matches nothing. */
  lemma ListNotFoundIff(s: Store, from: int64, to: int64, env: Env)
    requires ValidStore(s) && WellFormed(s) && ZRangeByScore !in env.failing
    ensures ListSpec(s, from, to, env).1.Some? ==> ListSpec(s, from, to, env).1 == Some(RepoNotFound)
    ensures ListSpec(s, from, to, env).1 == Some(RepoNotFound) <==>
              forall e :: e in s.order ==> !(from <= e.score <= to)
  {
    var hits := SortedSet.RangeByScore(s.order, from, to);
    DecodeHitsOk(hits);
    assert forall i :: 0 <= i < |hits| ==> hits[i] in hits;
    assert |hits| > 0 ==> hits[0] in hits;
  }

  /** When every entry decodes, the scan yields exactly the decoded entries. */
  lemma DecodedMembers(hits: seq<Entry>)
    requires forall e :: e in hits ==> DecodeEntry(e).Ok?
    ensures DecodeHits(hits).Ok?
    ensures forall d :: d in DecodeHits(hits).value <==> exists e :: e in hits && DecodeEntry(e) == Ok(d)
  {
    assert forall i :: 0 <= i < |hits| ==> hits[i] in hits;
    DecodeHitsOk(hits);
    var ds := DecodeHits(hits).value;
    forall d ensures d in ds <==> exists e :: e in hits && DecodeEntry(e) == Ok(d) {
      if d in ds {
        var i :| 0 <= i < |ds| && ds[i] == d;
        assert hits[i] in hits && DecodeEntry(hits[i]) == Ok(d);
      }
      if exists e :: e in hits && DecodeEntry(e) == Ok(d) {
        var e :| e in hits && DecodeEntry(e) == Ok(d);
        var i :| 0 <= i < |hits| && hits[i] == e;
        assert ds[i] == d;
      }
    }
  }

  /** In a well-formed store the listing holds exactly the decoded entries whose score is in range. */
  lemma ListMembership(s: Store, from: int64, to: int64, env: Env)
    requires ValidStore(s) && WellFormed(s) && ZRangeByScore !in env.failing
    ensures ListSpec(s, from, to, env).0.Some? ==> forall d ::
              d in ListSpec(s, from, to, env).0.value <==>
                exists e :: e in s.order && from <= e.score <= to && DecodeEntry(e) == Ok(d)
  {
    var hits := SortedSet.RangeByScore(s.order, from, to);
    DecodedMembers(hits);
  }

  /** One matched entry that does not decode makes the whole scan fail, with no partial result. */
  lemma ListAbortsOnBadEntry(s: Store, from: int64, to: int64, env: Env, bad: Entry)
    requires ZRangeByScore !in env.failing
    requires bad in s.order && from <= bad.score <= to && DecodeEntry(bad).Err?
    ensures ListSpec(s, from, to, env).0.None?
    ensures ListSpec(s, from, to, env).1.Some? && ListSpec(s, from, to, env).1 != Some(RepoNotFound)
    ensures exists e :: e in s.order && from <= e.score <= to && DecodeEntry(e) == Err(ListSpec(s, from, to, env).1.value)
    ensures (forall e :: e in s.order && from <= e.score <= to ==> Unmarshal(e.member).Err?) ==>
              ListSpec(s, from, to, env).1 == Some(RepoCorrupt)
  {
    var hits := SortedSet.RangeByScore(s.order, from, to);
    var k :| 0 <= k < |hits| && hits[k] == bad;
    DecodeHitsOk(hits);
    assert DecodeHits(hits).Err?;
    var err := DecodeHits(hits).error;
    assert ListSpec(s, from, to, env) == (None, Some(err));
    DecodeHitsErr(hits);
    var i :| 0 <= i < |hits| && DecodeEntry(hits[i]) == Err(err)
      && forall j :: 0 <= j < i ==> DecodeEntry(hits[j]).Ok?;
    assert hits[i] in hits;
    assert err != RepoNotFound;
    if forall e :: e in s.order && from <= e.score <= to ==> Unmarshal(e.member).Err? {
      assert Unmarshal(hits[i].member).Err?;
    }
  }

  /** A Put whose order-index write succeeded makes the record appear in every listing that covers its timestamp. */
  lemma ListAfterPut(s: Store, d: Data, env: Env, from: int64, to: int64, env2: Env)
    requires ValidStore(s) && WellFormed(s)
    requires ZAdd !in env.failing && ZRangeByScore !in env2.failing
    requires from <= d.timestamp <= to
    ensures ListSpec(PutSpec(s, Some(d), env).0, from, to, env2).0.Some?
    ensures Narrowed(d) in ListSpec(PutSpec(s, Some(d), env).0, from, to, env2).0.value
  {
    var s2 := PutSpec(s, Some(d), env).0;
    PutPreservesWellFormed(s, Some(d), env);
    var e := EntryOf(d);
    assert e in s2.order;
    ListNotFoundIff(s2, from, to, env2);
    ListMembership(s2, from, to, env2);
  }

  /** Both bounds are inclusive: a listing from t to t finds a record put with timestamp t. */
  lemma ListInclusiveBounds(s: Store, d: Data, env: Env, env2: Env)
    requires ValidStore(s) && WellFormed(s)
    requires ZAdd !in env.failing && ZRangeByScore !in env2.failing
    ensures ListSpec(PutSpec(s, Some(d), env).0, d.timestamp, d.timestamp, env2).0.Some?
    ensures Narrowed(d) in ListSpec(PutSpec(s, Some(d), env).0, d.timestamp, d.timestamp, env2).0.value
  {
    ListAfterPut(s, d, env, d.timestamp, d.timestamp, env2);
  }

  /** Once the point index has expired the record, GetByID no longer finds it while ListByPeriod still does. */
  lemma ExpiryDivergence(s: Store, d: Data, env: Env, env2: Env)
    requires ValidStore(s) && WellFormed(s)
    requires ZAdd !in env.failing && Set !in env.failing
    requires Get !in env2.failing && ZRangeByScore !in env2.failing && env2.now >= env.now + TtlSec
    ensures GetSpec(PutSpec(s, Some(d), env).0, d.id, env2) == (None, Some(RepoNotFound))
    ensures ListSpec(PutSpec(s, Some(d), env).0, d.timestamp, d.timestamp, env2).0.Some?
    ensures Narrowed(d) in ListSpec(PutSpec(s, Some(d), env).0, d.timestamp, d.timestamp, env2).0.value
  {
    ListInclusiveBounds(s, d, env, env2);
  }

  lemma PutOrderIdempotent(s: Store, d: Data, env: Env)
    requires ValidStore(s) && ZAdd !in env.failing
    ensures PutSpec(PutSpec(s, Some(d), env).0, Some(d), env).0.order == PutSpec(s, Some(d), env).0.order
  {
    var e := EntryOf(d);
    assert PutSpec(s, Some(d), env).0.order == SortedSet.ZAdd(s.order, e);
    SortedSet.ZAddIdempotent(s.order, e);
  }

  /** The point-index value a successful Put writes. */
  lemma PutPoints(s: Store, d: Data, env: Env)
    requires ValidStore(s) && ZAdd !in env.failing && Set !in env.failing
    ensures PutSpec(s, Some(d), env).0.points == s.points[Format(d.id) := Point(Marshal(WireOf(d)), env.now + TtlSec)]
  {
  }

  lemma PutPointsIdempotent(s: Store, d: Data, env: Env)
    requires ValidStore(s)
    ensures PutSpec(PutSpec(s, Some(d), env).0, Some(d), env).0.points == PutSpec(s, Some(d), env).0.points
  {
    var r1 := PutSpec(s, Some(d), env);
    if ZAdd !in env.failing && Set !in env.failing {
      PutPoints(s, d, env);
      PutPoints(r1.0, d, env);
      MapUpdateTwice(s.points, Format(d.id), Point(Marshal(WireOf(d)), env.now + TtlSec));
    } else {
      assert PutSpec(r1.0, Some(d), env).1.Some?;
    }
  }

  lemma MapUpdateTwice<K, V>(m: map<K, V>, k: K, v: V)
    ensures m[k := v][k := v] == m[k := v]
  {
  }

  /** Repeating a Put in the same environment changes nothing further. */
  lemma PutIdempotent(s: Store, data: Option<Data>, env: Env)
    requires ValidStore(s)
    ensures PutSpec(PutSpec(s, data, env).0, data, env) == PutSpec(s, data, env)
  {
    if data.Some? && ZAdd !in env.failing {
      PutOrderIdempotent(s, data.value, env);
      PutPointsIdempotent(s, data.value, env);
    }
  }

  /**
   * A Put of a different record under an id already stored replaces the point-index value but
   * keeps the earlier order-index entry, so a listing covering both timestamps returns both.
   */
  lemma RePutKeepsOrderEntry(s: Store, d1: Data, d2: Data, env1: Env, env2: Env, from: int64, to: int64, env3: Env)
    requires ValidStore(s) && WellFormed(s)
    requires d1.id == d2.id && Narrowed(d1) != Narrowed(d2)
    requires ZAdd !in env1.failing && ZAdd !in env2.failing && ZRangeByScore !in env3.failing
    requires from <= d1.timestamp <= to && from <= d2.timestamp <= to
    ensures var s2 := PutSpec(PutSpec(s, Some(d1), env1).0, Some(d2), env2).0;
      && EntryOf(d1) in s2.order && EntryOf(d2) in s2.order
      && ListSpec(s2, from, to, env3).0.Some?
      && Narrowed(d1) in ListSpec(s2, from, to, env3).0.value
      && Narrowed(d2) in ListSpec(s2, from, to, env3).0.value
  {
    var s1 := PutSpec(s, Some(d1), env1).0;
    var s2 := PutSpec(s1, Some(d2), env2).0;
    EntryOfInjective(d1, d2);
    var e1 := EntryOf(d1);
    assert e1 in s1.order;
    assert e1 in s2.order;
    PutPreservesWellFormed(s, Some(d1), env1);
    ListAfterPut(s1, d2, env2, from, to, env3);
    PutPreservesWellFormed(s1, Some(d2), env2);
    ListNotFoundIff(s2, from, to, env3);
    ListMembership(s2, from, to, env3);
  }

  /** The order-index entries after a Put whose order-index write succeeded. */
  lemma PutOrderMembers(s: Store, d: Data, env: Env)
    requires ValidStore(s) && ZAdd !in env.failing
    ensures forall x :: x in PutSpec(s, Some(d), env).0.order <==>
              x == EntryOf(d) || (x in s.order && x.member != EntryOf(d).member)
  {
  }

  /** Three successive Put calls into an empty store, each in its own environment. */
  function ThreeStored(a: Data, b: Data, c: Data, env: Env): (s: Store)
    ensures ValidStore(s)
  {
    PutSpec(PutSpec(PutSpec(Empty, Some(a), env).0, Some(b), env).0, Some(c), env).0
  }

  lemma ThreePuts(a: Data, b: Data, c: Data, env: Env)
    requires ZAdd !in env.failing
    requires a.timestamp == 100 && b.timestamp == 200 && c.timestamp == 300
    ensures forall x :: x in ThreeStored(a, b, c, env).order <==> x == EntryOf(a) || x == EntryOf(b) || x == EntryOf(c)
  {
    var s1 := PutSpec(Empty, Some(a), env).0;
    var s2 := PutSpec(s1, Some(b), env).0;
    EntryOfInjective(a, b);
    EntryOfInjective(a, c);
    EntryOfInjective(b, c);
    PutOrderMembers(Empty, a, env);
    PutOrderMembers(s1, b, env);
    PutOrderMembers(s2, c, env);
  }

  /** In a store holding entries scored 100, 200 and 300, the scan of [150, 300] matches the last two, in order. */
  lemma HitsOfThree(order: seq<Entry>, ea: Entry, eb: Entry, ec: Entry)
    requires SortedSet.Valid(order)
    requires forall x :: x in order <==> x == ea || x == eb || x == ec
    requires ea.score == 100 && eb.score == 200 && ec.score == 300
    ensures SortedSet.RangeByScore(order, 150, 300) == [eb, ec]
  {
    var hits := SortedSet.RangeByScore(order, 150, 300);
    assert SortedSet.EntryLess(eb, ec);
    SortedSet.SortedExtensional(hits, [eb, ec]);
  }

  /** What a listing of [150, 300] yields from any store holding exactly the entries of the three records. */
  lemma ListOfThree(s: Store, a: Data, b: Data, c: Data, env: Env)
    requires ValidStore(s) && ZRangeByScore !in env.failing
    requires forall x :: x in s.order <==> x == EntryOf(a) || x == EntryOf(b) || x == EntryOf(c)
    requires a.timestamp == 100 && b.timestamp == 200 && c.timestamp == 300
    ensures ListSpec(s, 150, 300, env) == (Some([Narrowed(b), Narrowed(c)]), None)
  {
    var eb, ec := EntryOf(b), EntryOf(c);
    HitsOfThree(s.order, EntryOf(a), eb, ec);
    ScanOfTwo(eb, ec, Narrowed(b), Narrowed(c));
  }

  lemma ScanOfTwo(e1: Entry, e2: Entry, d1: Data, d2: Data)
    requires DecodeEntry(e1) == Ok(d1) && DecodeEntry(e2) == Ok(d2)
    ensures DecodeHits([e1, e2]) == Ok([d1, d2])
  {
    assert [e1][..0] == [];
    assert [] + [d1] == [d1];
    assert DecodeHits([e1]) == Ok([d1]);
    assert [e1, e2][..1] == [e1];
    assert [d1] + [d2] == [d1, d2];
  }

  /** Three records at timestamps 100, 200 and 300, put into an empty store: [150, 300] lists the last two, in order. */
  lemma ThreeRecordScenario(a: Data, b: Data, c: Data, now: int)
    requires a.timestamp == 100 && b.timestamp == 200 && c.timestamp == 300
    ensures ListSpec(ThreeStored(a, b, c, Healthy(now)), 150, 300, Healthy(now)) == (Some([Narrowed(b), Narrowed(c)]), None)
  {
    ThreePuts(a, b, c, Healthy(now));
    ListOfThree(ThreeStored(a, b, c, Healthy(now)), a, b, c, Healthy(now));
  }
}
