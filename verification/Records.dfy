/** The entities of the master-data engine as immutable values. The live, mutable record
    object is `Service.MasterDataRecord`; `Rec` is its snapshot. */
module Records {
  import opened Text

  datatype Option<+T> = None | Some(value: T) {
    function GetOr(default: T): T {
      if Some? then value else default
    }
  }

  datatype Result<+T, +E> = Ok(value: T) | Err(error: E)

  datatype Error =
    | NotRegistered
    | AlreadyExists
    | NotFound
    | NoDraft
    | NoReview
    | NoApproved
    | ReferencesBlock
    | SystemMaster
    | InvalidRecord
    | ImportInvalid(rows: nat)

  datatype Status = Draft | InReview | Approved | Published | Rejected | Deprecated

  /** Attribute values are carried as opaque JSON text. */
  type Attributes = map<string, string>

  type Tenant = Option<string>

  /** The business fields that a new version may change. */
  datatype Content = Content(displayName: string, description: Option<string>, sortOrder: int,
                             parentCode: Option<string>, attributes: Attributes)

  /** Clock readings are microseconds since 1 January 2000, so the default epoch is 0. */
  const DEFAULT_MASTER_EPOCH: int := 0

  datatype Rec = Rec(id: string, masterType: string, code: string, content: Content,
                     isSystem: bool, isActive: bool, effectiveFrom: int, effectiveTo: Option<int>,
                     version: int, tenant: Tenant, createdBy: string, approvedBy: Option<string>, status: Status)
  {
    function Key(): string {
      Upper(code)
    }

    /** Effective over the half-open interval [effectiveFrom, effectiveTo). */
    predicate EffectiveAt(t: int) {
      effectiveFrom <= t && (effectiveTo.None? || effectiveTo.value > t)
    }
  }

  datatype Action =
    | CreateAction
    | DraftVersionAction
    | UpdateVersionAction
    | SubmitAction
    | ApproveAction
    | PublishAction
    | DeactivateAction
    | DeleteAction

  datatype Audit = Audit(recordId: string, masterType: string, code: string, version: int,
                         action: Action, changedBy: string, snapshot: Option<Rec>)

  /** The part of a registry manifest that the service consults. */
  datatype Manifest = Manifest(requiresApproval: bool)

  type Registry = map<string, Manifest>

  /** Position of the first element that satisfies `p`. */
  function FirstIndex<T>(s: seq<T>, p: T -> bool): (r: Option<nat>)
    ensures r.Some? ==> r.value < |s| && p(s[r.value])
    ensures r.Some? ==> forall i :: 0 <= i < r.value ==> !p(s[i])
    ensures r.None? ==> forall i :: 0 <= i < |s| ==> !p(s[i])
  {
    if s == [] then None
    else if p(s[0]) then Some(0)
    else
      match FirstIndex(s[1..], p)
      case None => assert forall i :: 1 <= i < |s| ==> s[i] == s[1..][i - 1]; None
      case Some(i) => assert forall j :: 1 <= j < |s| ==> s[j] == s[1..][j - 1]; Some(i + 1)
  }

  /** Position of the last element that satisfies `p`. */
  function LastIndex<T>(s: seq<T>, p: T -> bool): (r: Option<nat>)
    ensures r.Some? ==> r.value < |s| && p(s[r.value])
    ensures r.Some? ==> forall i :: r.value < i < |s| ==> !p(s[i])
    ensures r.None? ==> forall i :: 0 <= i < |s| ==> !p(s[i])
  {
    if s == [] then None
    else if p(s[|s| - 1]) then Some(|s| - 1)
    else LastIndex(s[..|s| - 1], p)
  }
}
