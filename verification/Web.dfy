/** The web handler through which a user changes the status of a finding. */
module Web {
  import opened Core
  import opened Stores
  import Runs

  datatype Response = BadRequest | NotFound | StoreError | Done

  class Server {
    const store: Store
    const moduleId: string

    constructor (s: Store, m: string)
      ensures store == s && moduleId == m
    {
      store, moduleId := s, m;
    }

    /** Reads the record, assigns the status, writes the record back. It does not look at the status it replaces. A
        record that cannot be read is not found; once it is `read`, only the write can fail. */
    method HandleFindingStatus(fingerprint: string, next: Status) returns (response: Response, ghost read: bool)
      requires store.Valid() && store.ModuleOk(moduleId)
      modifies store.Footprint()
      ensures store.Valid()
      ensures response == BadRequest <==> next != Open && next != Acknowledged && next != Suppressed
      ensures response != BadRequest ==>
        if read then response == Done || response == StoreError else response == NotFound
      ensures read ==> Key(moduleId, fingerprint) in old(store.Rows())
      ensures response == Done ==>
        var k := Key(moduleId, fingerprint); var before, after := old(store.Rows()), store.Rows();
        && k in before && after.Keys == before.Keys
        && after[k] == before[k].(f := before[k].f.(status := next))
        && forall k' :: k' in before && k' != k ==> after[k'] == before[k']
      ensures response == Done ==>
        && Key(moduleId, fingerprint) in old(store.Rows())
        && store.Rows() == Runs.After(store.Kind(), old(store.Rows()), Runs.SetStatus(Key(moduleId, fingerprint), next))
      ensures response != Done ==> store.Rows() == old(store.Rows())
      ensures store.Mem? && response != BadRequest ==>
        response == if Key(moduleId, fingerprint) in old(store.Rows()) then Done else NotFound
    {
      hide Put, Runs.After, Runs.WithStatus, Refuses;
      ghost var rows, k := store.Rows(), Key(moduleId, fingerprint);
      if next != Acknowledged && next != Suppressed && next != Open {
        return BadRequest, false;
      }
      var ok, found := store.Get(moduleId, fingerprint);
      if !ok || found == None {
        return NotFound, false;
      }
      read := true;
      ValidIsKeyed(store);
      ChangeIsPut(store.Kind(), rows, k, next);
      Runs.UserChangeExactly(store.Kind(), rows, k, next);
      var written := store.Upsert(found.value.(f := found.value.f.(status := next)));
      response := if written then Done else StoreError;
    }
  }

  lemma ValidIsKeyed(store: Store)
    requires store.Valid()
    ensures Keyed(store.Rows())
  {
  }

  lemma ChangeIsPut(b: Backend, rows: Table, k: Key, next: Status)
    requires k in rows
    ensures Runs.After(b, rows, Runs.SetStatus(k, next)) == Put(b, rows, rows[k].(f := rows[k].f.(status := next)))
  {
  }
}
