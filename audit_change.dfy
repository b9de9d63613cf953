/**
 * The audit hook: whether the table's audit function is set, and the
 * request that function sends to the backend for an audited change.
 */
module AuditChange {
  import opened Values
  import opened TableTypes

  /** The minimum backend version that can record audit entries. */
  const MinAuditVersion := "1.1.1"

  /**
   * The gate: a table id, a collection and the `audit` flag are all set,
   * and the backend is at least version 1.1.1. `compatible` stands for the
   * backend version check, whose code is not part of this model.
   */
  predicate AuditEnabled(settings: Option<TableSettings>, compatible: string -> bool) {
    && settings.Some?
    && settings.value.id != ""
    && settings.value.collection != ""
    && settings.value.audit
    && compatible(MinAuditVersion)
  }

  datatype AuditType = AddRow | UpdateCell | DeleteRow

  /** The backend routes this model refers to. */
  datatype Route = AuditChangeRoute

  /** The `ref` of an audit request: where the changed row lives. */
  datatype AuditRef = AuditRef(rowPath: string, rowId: string, tableId: string, collectionPath: string)

  /** The optional `data` of an audit request. */
  datatype AuditData = AuditData(updatedField: Option<string>)

  datatype AuditBody = AuditBody(auditType: AuditType, ref: AuditRef, data: Option<AuditData>)

  datatype AuditRequest = AuditRequest(route: Route, body: AuditBody)

  /** The request the audit function sends for a change of kind `t` to row `rowId`. */
  function Request(settings: TableSettings, t: AuditType, rowId: string, data: Option<AuditData>): (req: AuditRequest)
    ensures req.route == AuditChangeRoute
    ensures req.body.auditType == t && req.body.data == data
    ensures req.body.ref.rowId == rowId && req.body.ref.tableId == settings.id
    ensures req.body.ref.rowPath == req.body.ref.collectionPath == settings.collection
  {
    AuditRequest(AuditChangeRoute, AuditBody(t, AuditRef(settings.collection, rowId, settings.id, settings.collection), data))
  }

  /** How a promise settles. */
  datatype Settled = Resolved(value: Value) | Rejected(reason: Value)

  /**
   * `rowyRun(...).catch(console.log)`: a failure of the backend call is
   * logged and the promise resolves with `console.log`'s `undefined`.
   */
  function Caught(response: Settled): (r: Settled)
    ensures r.Resolved?
    ensures response.Resolved? ==> r == response
  {
    match response
    case Resolved(_) => response
    case Rejected(_) => Resolved(Undefined)
  }

  /**
   * `auditChangeAtom`: `settings` holds the table settings the audit
   * function was made with, `None` while the function is unset.
   */
  class AuditChangeAtom {
    var settings: Option<TableSettings>

    constructor ()
      ensures settings.None?
    {
      settings := None;
    }

    /** The effect: the audit function is set exactly when the gate passes. */
    method Effect(tableSettings: Option<TableSettings>, compatible: string -> bool)
      modifies this
      ensures settings.Some? <==> AuditEnabled(tableSettings, compatible)
      ensures settings.Some? ==> settings == tableSettings
    {
      if tableSettings.None? || tableSettings.value.id == "" || tableSettings.value.collection == ""
        || !tableSettings.value.audit || !compatible(MinAuditVersion)
      {
        settings := None;
        return;
      }
      settings := tableSettings;
    }

    /** The effect's cleanup unsets the audit function. */
    method Cleanup()
      modifies this
      ensures settings.None?
    {
      settings := None;
    }

    /**
     * Calling the audit function, given how the backend call settles: the
     * request it sends and how the returned promise settles.
     */
    method Call(t: AuditType, rowId: string, data: Option<AuditData>, response: Settled)
      returns (req: AuditRequest, outcome: Settled)
      requires settings.Some?
      ensures req == Request(settings.value, t, rowId, data)
      ensures outcome == Caught(response)
    {
      req := Request(settings.value, t, rowId, data);
      outcome := Caught(response);
    }
  }
}
