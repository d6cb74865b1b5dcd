/** The audit trail: every call of `LogAsync` appends one entry. */
module Audit {
  import opened Wrappers
  import opened Schema

  /** `AuditService.LogAsync`: records `description` against `entityId`, stamped
      with `now`; the update stamp is present exactly when an updater is named. */
  function Log(s: Store, description: string, entityId: Id, createdBy: Option<string>,
               updatedBy: Option<string>, now: Instant): (r: Store)
    ensures |r.audit| == |s.audit| + 1
    ensures r.audit[..|s.audit|] == s.audit
    ensures r == s.(audit := r.audit)
    ensures r.audit[|s.audit|].description == description
    ensures r.audit[|s.audit|].entityId == entityId
    ensures r.audit[|s.audit|].createdBy == createdBy
    ensures r.audit[|s.audit|].updatedBy == updatedBy
    ensures r.audit[|s.audit|].createdAt == now
    ensures r.audit[|s.audit|].updatedAt.Some? <==> updatedBy.Some?
    ensures r.audit[|s.audit|].updatedAt.Some? ==> r.audit[|s.audit|].updatedAt.value == now
  {
    var entry := AuditEntry(description, entityId, createdBy, now, updatedBy,
                            if updatedBy.Some? then Some(now) else None);
    s.(audit := s.audit + [entry])
  }
}
