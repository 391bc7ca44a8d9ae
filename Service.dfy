/**
 * `service.DataService`: the query service in front of the repository. Put delegates; GetByID
 * and ListByPeriod translate the repository's outcome: errors pass through, a missing or empty
 * result becomes the service's own not-found error, and a record with the nil identifier
 * becomes the service's corrupted-data error.
 */
module Service {
  import opened GoTypes
  import opened Errors
  import opened Uuid
  import opened Models
  import opened DataMapping
  import opened RedisRepository
  import opened RepositoryContract

  /** The translation of a lookup outcome: exactly one of record and error comes back. */
  function TranslateGet(outcome: (Option<Data>, Option<Error>)): (r: (Option<Data>, Option<Error>))
    ensures r.0.Some? <==> r.1.None?
    ensures outcome.1.Some? ==> r == (None, outcome.1)
    ensures outcome.1.None? && outcome.0.None? ==> r == (None, Some(ServiceNotFound))
    ensures outcome.1.None? && outcome.0.Some? && outcome.0.value.id == Nil ==> r == (None, Some(ServiceCorrupt))
    ensures r.0.Some? ==> r.0 == outcome.0 && r.0.value.id != Nil
  {
    var (data, err) := outcome;
    if err.Some? then (None, err)
    else if data.None? then (None, Some(ServiceNotFound))
    else if data.value.id == Nil then (None, Some(ServiceCorrupt))
    else (data, None)
  }

  /**
   * The translation of a listing outcome: on a repository error an empty, non-nil list with
   * that error; a nil result is not found with a nil list, an empty one is not found with an
   * empty list; anything else passes through.
   */
  function TranslateList(outcome: (Option<seq<Data>>, Option<Error>)): (r: (Option<seq<Data>>, Option<Error>))
    ensures outcome.1.Some? ==> r == (Some([]), outcome.1)
    ensures outcome.1.None? && outcome.0.None? ==> r == (None, Some(ServiceNotFound))
    ensures outcome.1.None? && outcome.0 == Some([]) ==> r == (Some([]), Some(ServiceNotFound))
    ensures r.1.None? <==> outcome.1.None? && outcome.0.Some? && |outcome.0.value| > 0
    ensures r.1.None? ==> r.0 == outcome.0
  {
    var (data, err) := outcome;
    if err.Some? then (Some([]), err)
    else if data.None? then (None, Some(ServiceNotFound))
    else if |data.value| == 0 then (Some([]), Some(ServiceNotFound))
    else (data, None)
  }

  /** `DataService.GetByID` as a function of the store: a record with a non-nil id, or an error. */
  function ServiceGet(s: Store, id: UUID, env: Env): (r: (Option<Data>, Option<Error>))
    ensures r.0.Some? <==> r.1.None?
    ensures r.0.Some? ==> r.0.value.id != Nil
  {
    TranslateGet(GetSpec(s, id, env))
  }

  /** `DataService.ListByPeriod` as a function of the store: without an error the list is not empty. */
  function ServiceList(s: Store, from: int64, to: int64, env: Env): (r: (Option<seq<Data>>, Option<Error>))
    ensures r.1.None? ==> r.0.Some? && |r.0.value| > 0
  {
    TranslateList(ListSpec(s, from, to, env))
  }

  class DataService {
    const repo: RedisRepository

    constructor (repo: RedisRepository)
      ensures this.repo == repo
    {
      this.repo := repo;
    }

    /** Delegates to the repository and returns its error unchanged. */
    method Put(data: Option<Data>, env: Env) returns (err: Option<Error>)
      requires repo.Valid()
      modifies repo
      ensures repo.Valid()
      ensures (repo.State(), err) == PutSpec(old(repo.State()), data, env)
    {
      err := repo.Put(data, env);
    }

    method GetByID(id: UUID, env: Env) returns (data: Option<Data>, err: Option<Error>)
      ensures (data, err) == ServiceGet(repo.State(), id, env)
    {
      var d, e := repo.GetByID(id, env);
      if e.Some? {
        return None, e;
      }
      if d.None? {
        return None, Some(ServiceNotFound);
      }
      if d.value.id == Nil {
        return None, Some(ServiceCorrupt);
      }
      return d, None;
    }

    method ListByPeriod(from: int64, to: int64, env: Env) returns (data: Option<seq<Data>>, err: Option<Error>)
      ensures (data, err) == ServiceList(repo.State(), from, to, env)
    {
      var ds, e := repo.ListByPeriod(from, to, env);
      if e.Some? {
        return Some([]), e;
      }
      if ds.None? {
        return None, Some(ServiceNotFound);
      }
      if |ds.value| == 0 {
        return Some([]), Some(ServiceNotFound);
      }
      return ds, None;
    }
  }

  /**
   * With this repository the service never reports its own not-found error: a lookup never
   * yields neither record nor error, and a listing never yields an empty success.
   */
  lemma ServiceNotFoundUnreachable(s: Store, id: UUID, from: int64, to: int64, env: Env)
    ensures ServiceGet(s, id, env).1 != Some(ServiceNotFound)
    ensures ServiceList(s, from, to, env).1 != Some(ServiceNotFound)
  {
  }

  /** A listing that fails at the repository comes back as an empty list with the same error. */
  lemma ServiceListError(s: Store, from: int64, to: int64, env: Env)
    requires ListSpec(s, from, to, env).1.Some?
    ensures ServiceList(s, from, to, env) == (Some([]), ListSpec(s, from, to, env).1)
  {
  }

  /** After a successful Put of a record with a non-nil id, the service finds it until it expires. */
  lemma ServicePutThenGet(s: Store, d: Data, env: Env, env2: Env)
    requires ValidStore(s) && d.id != Nil
    requires ZAdd !in env.failing && Set !in env.failing
    requires Get !in env2.failing && env2.now < env.now + TtlSec
    ensures ServiceGet(PutSpec(s, Some(d), env).0, d.id, env2) == (Some(Narrowed(d)), None)
  {
    PutThenGet(s, d, env, env2);
  }

  /** A record stored with the nil id is reported as corrupted data when looked up. */
  lemma ServiceNilIdCorrupt(s: Store, d: Data, env: Env, env2: Env)
    requires ValidStore(s) && d.id == Nil
    requires ZAdd !in env.failing && Set !in env.failing
    requires Get !in env2.failing && env2.now < env.now + TtlSec
    ensures ServiceGet(PutSpec(s, Some(d), env).0, d.id, env2) == (None, Some(ServiceCorrupt))
  {
    PutThenGet(s, d, env, env2);
  }

  /** In a well-formed store, corrupted data is reported exactly for a live entry under the nil id. */
  lemma ServiceCorruptOnlyForNil(s: Store, id: UUID, env: Env)
    requires WellFormed(s)
    ensures ServiceGet(s, id, env).1 == Some(ServiceCorrupt) ==> id == Nil
    ensures ServiceGet(s, id, env).0.Some? ==> ServiceGet(s, id, env).0.value.id == id
  {
    if GetSpec(s, id, env).1.None? {
      GetReturnsRequestedId(s, id, env);
    }
  }
}
