/**
 * The wiring of the processing pipeline with a single worker: packs go through the event
 * processor, whose outcomes feed the metrics collector. Run one after the other, the
 * collector's counters are the numbers of packs stored and not stored.
 */
module Pipeline {
  import opened Errors
  import opened Models
  import opened RedisRepository
  import opened EventProc
  import opened Metrics
  import Service

  /** A pack is stored when it has values and neither write of the Put fails. */
  predicate Stored(pack: Pack, env: Env) {
    |pack.data| > 0 && ZAdd !in env.failing && Set !in env.failing
  }

  /** The number of packs that are stored. */
  function StoredCount(packs: seq<Pack>, envs: seq<Env>): (n: nat)
    requires |envs| == |packs|
    ensures n <= |packs|
  {
    if |packs| == 0 then 0
    else
      var k := |packs| - 1;
      StoredCount(packs[..k], envs[..k]) + if Stored(packs[k], envs[k]) then 1 else 0
  }

  lemma {:induction false} OutcomesCountStored(s: Store, packs: seq<Pack>, envs: seq<Env>)
    requires ValidStore(s) && |envs| == |packs|
    ensures CountOf(ProcessAllSpec(s, packs, envs).1, true) == StoredCount(packs, envs)
  {
    if |packs| > 0 {
      var k := |packs| - 1;
      OutcomesCountStored(s, packs[..k], envs[..k]);
      var prev := ProcessAllSpec(s, packs[..k], envs[..k]);
      var outs := ProcessAllSpec(s, packs, envs).1;
      var step := ProcessPackSpec(prev.0, packs[k], envs[k]);
      assert outs == prev.1 + [step.2];
      ProcessAllOutcomes(s, packs[..k], envs[..k]);
      assert outs[..|outs| - 1] == prev.1;
    }
  }

  /** The collector's counters after the whole input: successes are the stored packs, failures the rest. */
  lemma PipelineCounts(s: Store, packs: seq<Pack>, envs: seq<Env>, batchSize: int)
    requires ValidStore(s) && |envs| == |packs| && batchSize > 0
    ensures Fold(Zero, ProcessAllSpec(s, packs, envs).1, batchSize).0
         == ProcessingResult(StoredCount(packs, envs), |packs| - StoredCount(packs, envs))
  {
    ProcessAllOutcomes(s, packs, envs);
    OutcomesCountStored(s, packs, envs);
    FoldFromZero(ProcessAllSpec(s, packs, envs).1, batchSize);
  }

  /** With every write succeeding, nothing counts as failed except the packs without values. */
  lemma {:induction false} HealthyStoresAllNonEmpty(packs: seq<Pack>, envs: seq<Env>)
    requires |envs| == |packs|
    requires forall i :: 0 <= i < |packs| ==> |packs[i].data| > 0 && envs[i].failing == {}
    ensures StoredCount(packs, envs) == |packs|
  {
    if |packs| > 0 {
      var k := |packs| - 1;
      assert forall i :: 0 <= i < k ==> packs[..k][i] == packs[i] && envs[..k][i] == envs[i];
      HealthyStoresAllNonEmpty(packs[..k], envs[..k]);
    }
  }

  /** One worker, then the collector on what it sent. */
  method Run(ds: Service.DataService, input: seq<Pack>, envs: seq<Env>, batchSize: int)
      returns (collector: Collector)
    requires ds.repo.Valid() && |envs| == |input| && batchSize > 0
    modifies ds.repo
    ensures ds.repo.Valid()
    ensures ds.repo.State() == ProcessAllSpec(old(ds.repo.State()), input, envs).0
    ensures collector.result == ProcessingResult(StoredCount(input, envs), |input| - StoredCount(input, envs))
  {
    ghost var s0 := ds.repo.State();
    var outcomes := new Outcomes();
    ProcessData(ds, input, envs, outcomes);
    ghost var outs := ProcessAllSpec(s0, input, envs).1;
    assert outcomes.sent == outs;
    collector := new Collector();
    collector.Start(outcomes.sent, batchSize);
    assert collector.result == Fold(Zero, outs, batchSize).0;
    PipelineCounts(s0, input, envs, batchSize);
  }
}
