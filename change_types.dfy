/**
 * The shapes the change-report builder works on: op codes, value states,
 * property deltas, the report, and the briefcase with its change cache,
 * reduced to the data its queries yield.
 */
module ChangeTypes {

  datatype Option<T> = None | Some(value: T)

  /** A step that either yields a value or stops with the error the SDK would throw. */
  datatype Result<T> = Success(value: T) | Failure(error: Error)

  /** Id64String: element, instance change and change summary ids. */
  type Id64 = string

  datatype Error =
    /** `assert(changeSummaryIds.length === 1)` failed. */
    | SummaryCountNotOne(count: nat)
    /** queryChangeSummary found no change set for the summary id. */
    | SummaryNotFound(summaryId: Id64)
    /** queryInstanceChange found no instance change for the id. */
    | InstanceChangeNotFound(changeId: Id64)

  /** ChangeOpCode (Insert = 1, Update = 2, Delete = 4). */
  datatype OpCode = Insert | Update | Delete

  /** `ChangeOpCode[opCode]`: the enum member's name. */
  function OpName(op: OpCode): (name: string)
    ensures name in {"Insert", "Update", "Delete"}
    ensures name == "Insert" <==> op == Insert
    ensures name == "Update" <==> op == Update
    ensures name == "Delete" <==> op == Delete
  {
    match op
    case Insert => "Insert"
    case Update => "Update"
    case Delete => "Delete"
  }

  /** ChangedValueState: which side of the transition a property-value query reads. */
  datatype ValueState = AfterInsert | BeforeUpdate | AfterUpdate | BeforeDelete

  /** One result row: property name to value; values are opaque. */
  type Row<V> = map<string, V>

  /** `{oldValue?, newValue?}`: an absent side is None. */
  datatype PropertyChange<V> = PropertyChange(oldValue: Option<V>, newValue: Option<V>)

  type PropertyChanges<V> = map<string, PropertyChange<V>>

  /** The parts of an InstanceChange the builder reads. */
  datatype InstanceChange = InstanceChange(id: Id64, className: string, opCode: OpCode)

  datatype ChangeSet = ChangeSet(wsgId: string, pushDate: string, description: string)

  datatype ChangeSummary = ChangeSummary(id: Id64, changeSet: ChangeSet)

  /** One row of the long-lead-item query: `{changeId, userLabel}`. */
  datatype ChangeRow = ChangeRow(changeId: Id64, userLabel: string)

  datatype ClassEntry<V> = ClassEntry(changeType: string, propertyChanges: PropertyChanges<V>)

  /** className -> entry */
  type Section<V> = map<string, ClassEntry<V>>

  /** elementUserLabel -> section */
  type Sections<V> = map<string, Section<V>>

  datatype ChangedElementReport<V> =
    ChangedElementReport(id: Id64, date: string, description: string, sections: Sections<V>)

  /**
   * The briefcase with its change cache attached, as the builder sees it:
   * the ids extractChangeSummaries returned, what queryChangeSummary and
   * queryInstanceChange find, the rows the long-lead-item ECSQL yields for
   * a summary id (filtered, joined and ordered by the database), and the
   * rows each generated property-value query yields.
   */
  datatype Briefcase<V> = Briefcase(
    extractedSummaryIds: seq<Id64>,
    summaries: map<Id64, ChangeSummary>,
    instanceChanges: map<Id64, InstanceChange>,
    longLeadRows: Id64 -> seq<ChangeRow>,
    propertyValueRows: (InstanceChange, ValueState) -> seq<Row<V>>)
}
