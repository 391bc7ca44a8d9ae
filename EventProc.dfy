/**
 * `service.ProcessPack` and the loop of `service.ProcessData`, run sequentially: each pack is
 * reduced to a record and stored through the service, and exactly one outcome is sent towards
 * the metrics collector. The outcome channel is the sequence of values sent on it.
 */
module EventProc {
  import opened GoTypes
  import opened Errors
  import opened Models
  import opened DataMapping
  import opened WireCodec
  import opened RedisRepository
  import opened RepositoryContract
  import Service

  /** The outcome channel, as the values sent on it so far. */
  class Outcomes {
    var sent: seq<bool>

    constructor ()
      ensures sent == []
    {
      sent := [];
    }

    method Send(ok: bool)
      modifies this
      ensures sent == old(sent) + [ok]
    {
      sent := sent + [ok];
    }
  }

  /** One pack: the store afterwards, the returned error and the outcome sent. */
  function ProcessPackSpec(s: Store, pack: Pack, env: Env): (r: (Store, Option<Error>, bool))
    requires ValidStore(s)
    ensures ValidStore(r.0)
    ensures r.2 <==> r.1.None?
    ensures r.2 <==> |pack.data| > 0 && ZAdd !in env.failing && Set !in env.failing
    ensures |pack.data| == 0 ==> r.0 == s && r.1 == Some(SliceEmpty)
    ensures |pack.data| > 0 ==> (r.0, r.1) == PutSpec(s, Some(MapPackToData(pack).0), env)
  {
    var (data, err) := MapPackToData(pack);
    if err.Some? then (s, err, false)
    else
      var (s2, putErr) := PutSpec(s, Some(data), env);
      (s2, putErr, putErr.None?)
  }

  /** The whole input, one environment per pack: the final store and the outcomes in order. */
  function ProcessAllSpec(s: Store, packs: seq<Pack>, envs: seq<Env>): (r: (Store, seq<bool>))
    requires ValidStore(s) && |envs| == |packs|
    ensures ValidStore(r.0)
  {
    if |packs| == 0 then (s, [])
    else
      var n := |packs| - 1;
      var (mid, outs) := ProcessAllSpec(s, packs[..n], envs[..n]);
      var (next, _, ok) := ProcessPackSpec(mid, packs[n], envs[n]);
      (next, outs + [ok])
  }

  method ProcessPack(pack: Pack, ds: Service.DataService, outcomes: Outcomes, env: Env) returns (err: Option<Error>)
    requires ds.repo.Valid()
    modifies ds.repo, outcomes
    ensures ds.repo.Valid()
    ensures (ds.repo.State(), err) == (ProcessPackSpec(old(ds.repo.State()), pack, env).0, ProcessPackSpec(old(ds.repo.State()), pack, env).1)
    ensures outcomes.sent == old(outcomes.sent) + [ProcessPackSpec(old(ds.repo.State()), pack, env).2]
  {
    var (data, mapErr) := MapPackToData(pack);
    if mapErr.Some? {
      outcomes.Send(false);
      return mapErr;
    }
    err := ds.Put(Some(data), env);
    if err.Some? {
      outcomes.Send(false);
      return err;
    }
    outcomes.Send(true);
    return None;
  }

  /** Every pack is processed in turn; an error on one pack is only logged and does not stop the loop. */
  method ProcessData(ds: Service.DataService, input: seq<Pack>, envs: seq<Env>, outcomes: Outcomes)
    requires ds.repo.Valid() && |envs| == |input|
    modifies ds.repo, outcomes
    ensures ds.repo.Valid()
    ensures ds.repo.State() == ProcessAllSpec(old(ds.repo.State()), input, envs).0
    ensures outcomes.sent == old(outcomes.sent) + ProcessAllSpec(old(ds.repo.State()), input, envs).1
  {
    for i := 0 to |input|
      invariant ds.repo.Valid()
      invariant ds.repo.State() == ProcessAllSpec(old(ds.repo.State()), input[..i], envs[..i]).0
      invariant outcomes.sent == old(outcomes.sent) + ProcessAllSpec(old(ds.repo.State()), input[..i], envs[..i]).1
    {
      assert input[..i + 1][..i] == input[..i] && envs[..i + 1][..i] == envs[..i];
      var _ := ProcessPack(input[i], ds, outcomes, envs[i]);
    }
    assert input[..|input|] == input && envs[..|envs|] == envs;
  }

  /** Exactly one outcome per pack, and outcome i is true exactly when pack i had values and both writes succeeded. */
  lemma {:induction false} ProcessAllOutcomes(s: Store, packs: seq<Pack>, envs: seq<Env>)
    requires ValidStore(s) && |envs| == |packs|
    ensures |ProcessAllSpec(s, packs, envs).1| == |packs|
    ensures forall i :: 0 <= i < |packs| ==>
              (ProcessAllSpec(s, packs, envs).1[i] <==>
                 |packs[i].data| > 0 && ZAdd !in envs[i].failing && Set !in envs[i].failing)
  {
    if |packs| > 0 {
      var n := |packs| - 1;
      var prev := ProcessAllSpec(s, packs[..n], envs[..n]);
      ProcessAllOutcomes(s, packs[..n], envs[..n]);
      var step := ProcessPackSpec(prev.0, packs[n], envs[n]);
      var outs := ProcessAllSpec(s, packs, envs).1;
      assert outs == prev.1 + [step.2];
      forall i | 0 <= i < |packs|
        ensures outs[i] <==> |packs[i].data| > 0 && ZAdd !in envs[i].failing && Set !in envs[i].failing
      {
        if i < n {
          assert packs[..n][i] == packs[i] && envs[..n][i] == envs[i];
          assert outs[i] == prev.1[i];
        }
      }
    }
  }

  /** An order-index entry stays in place across a Put, whatever its outcome. */
  lemma PutKeepsOrderEntry(s: Store, data: Option<Data>, env: Env, e: Entry)
    requires ValidStore(s) && e in s.order && DecodeEntry(e).Ok?
    ensures e in PutSpec(s, data, env).0.order
  {
    if data.Some? && ZAdd !in env.failing {
      var d := data.value;
      if e.member == EntryOf(d).member {
        UnmarshalMarshalWire(d);
      }
    }
  }

  lemma UnmarshalMarshalWire(d: Data)
    ensures Unmarshal(EntryOf(d).member) == Ok(WireOf(d))
  {
    UnmarshalMarshal(WireOf(d));
  }

  /** Processing one pack keeps a decodable order-index entry in place. */
  lemma ProcessPackKeeps(s: Store, pack: Pack, env: Env, e: Entry)
    requires ValidStore(s) && e in s.order && DecodeEntry(e).Ok?
    ensures e in ProcessPackSpec(s, pack, env).0.order
  {
    if |pack.data| > 0 {
      PutKeepsOrderEntry(s, Some(MapPackToData(pack).0), env, e);
    }
  }

  /** Processing one pack whose order-index write succeeds adds its record to the order index. */
  lemma ProcessPackAdds(s: Store, pack: Pack, env: Env)
    requires ValidStore(s) && |pack.data| > 0 && ZAdd !in env.failing
    ensures EntryOf(MapPackToData(pack).0) in ProcessPackSpec(s, pack, env).0.order
  {
    PutOrderMembers(s, MapPackToData(pack).0, env);
  }

  /** Every pack whose order-index write succeeded has its record in the final order index. */
  lemma {:induction false} ProcessAllRecorded(s: Store, packs: seq<Pack>, envs: seq<Env>, i: nat)
    requires ValidStore(s) && |envs| == |packs|
    requires i < |packs| && |packs[i].data| > 0 && ZAdd !in envs[i].failing
    ensures EntryOf(MapPackToData(packs[i]).0) in ProcessAllSpec(s, packs, envs).0.order
  {
    var n := |packs| - 1;
    var mid := ProcessAllSpec(s, packs[..n], envs[..n]).0;
    assert ProcessAllSpec(s, packs, envs).0 == ProcessPackSpec(mid, packs[n], envs[n]).0;
    if i < n {
      assert packs[..n][i] == packs[i] && envs[..n][i] == envs[i];
      ProcessAllRecorded(s, packs[..n], envs[..n], i);
      ProcessPackKeeps(mid, packs[n], envs[n], EntryOf(MapPackToData(packs[i]).0));
    } else {
      ProcessPackAdds(mid, packs[n], envs[n]);
    }
  }
}
