/** The repository: live record objects in insertion order, mutated in place by the service
    and by the seeder. */
module Store {
  import opened Records

  class MasterDataRecord {
    const id: string
    const masterType: string
    const code: string
    const isSystem: bool
    const version: int
    const tenant: Tenant
    const createdBy: string
    var content: Content
    var isActive: bool
    var effectiveFrom: int
    var effectiveTo: Option<int>
    var approvedBy: Option<string>
    var status: Status

    constructor (r: Rec)
      ensures Snapshot() == r
    {
      id, masterType, code, isSystem, version := r.id, r.masterType, r.code, r.isSystem, r.version;
      tenant, createdBy := r.tenant, r.createdBy;
      content, isActive, effectiveFrom, effectiveTo := r.content, r.isActive, r.effectiveFrom, r.effectiveTo;
      approvedBy, status := r.approvedBy, r.status;
    }

    /** The record dumped as a value. */
    function Snapshot(): Rec
      reads this
    {
      Rec(id, masterType, code, content, isSystem, isActive, effectiveFrom, effectiveTo, version, tenant,
          createdBy, approvedBy, status)
    }
  }

  class MasterDataStore {
    var records: seq<MasterDataRecord>

    constructor ()
      ensures Valid() && View() == []
    {
      records := [];
    }

    /** No two positions share an object. */
    ghost predicate Valid()
      reads this
    {
      forall i, j :: 0 <= i < j < |records| ==> records[i] != records[j]
    }

    function View(): (v: seq<Rec>)
      reads this, records
      ensures |v| == |records|
      ensures forall i :: 0 <= i < |records| ==> v[i] == records[i].Snapshot()
    {
      seq(|records|, i requires 0 <= i < |records| reads this, records => records[i].Snapshot())
    }

    /** Saves a record under a new id. */
    method Append(r: MasterDataRecord)
      requires Valid() && r !in records
      modifies this
      ensures Valid() && records == old(records) + [r]
      ensures View() == old(View()) + [r.Snapshot()]
    {
      records := records + [r];
    }

    method RemoveAt(i: nat)
      requires Valid() && i < |records|
      modifies this
      ensures Valid() && records == old(records)[..i] + old(records)[i + 1..]
      ensures View() == old(View())[..i] + old(View())[i + 1..]
    {
      records := records[..i] + records[i + 1..];
    }
  }

  /** Stored objects stay where they are, and the ones after them are new. */
  twostate predicate KeepsObjects(repo: MasterDataStore)
    reads repo
  {
    && |old(repo.records)| <= |repo.records|
    && (forall i :: 0 <= i < |old(repo.records)| ==> repo.records[i] == old(repo.records)[i])
    && (forall i :: |old(repo.records)| <= i < |repo.records| ==> fresh(repo.records[i]))
  }
}
