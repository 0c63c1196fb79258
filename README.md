# Long-lead-item change report, modelled in Dafny

This project models the change-report builder of the jumpstart agent (`src/FlagLongLeadItems.ts`).
After a new change set is pushed to an iModel, the builder does two things:

- It resolves, for each changed instance, the before and after values of its properties into a
  `PropertyChanges` map, `name -> {oldValue?, newValue?}`.
- It folds the changed long-lead items into a `ChangedElementReport`, shaped as
  `sections[userLabel][className] = {changeType, propertyChanges}`.
  It returns `undefined` when no section was created.

Three modules, one per concern:

- `change_types.dfy` (`ChangeTypes`): the shapes of lines 6-25 and the op-code and value-state enums.
  It also holds `Briefcase<V>`, the briefcase with its change cache reduced to the data its queries yield:
  - the summary ids `extractChangeSummaries` returned;
  - what `queryChangeSummary` and `queryInstanceChange` find, as maps;
  - the rows of the long-lead-item ECSQL for a summary id;
  - the rows of each generated property-value query, as a function of the instance change and the `ChangedValueState`.

  Property values are an opaque type parameter `V`.
- `property_changes.dfy` (`PropertyChanges`): `querySingleRow` and `getPropertyChanges`.
  The method has the source's two loops over the row's properties.
  It is proved equal to `Resolve`, defined from an independent reference map `Delta(before, after)`.
- `report_assembler.dfy` (`ReportAssembler`): the loop of `flagLongLeadItems` as a method.
  It is proved equal to `FlagReport`, which is built on the fold `Assemble`.
  The lemmas state the per-label, per-class behaviour of that fold.

The model keeps three of the failure paths of `src/FlagLongLeadItems.ts`, each as a `Failure` of `Result`:

- the `assert` on the number of extracted summaries (line 35);
- `queryChangeSummary` finding nothing (line 36);
- `queryInstanceChange` finding nothing (line 67).

The other failure paths are listed under "## Left out".

Two behaviours of the code worth stating plainly:

- Several rows for one (label, class) pair: line 68 replaces the whole per-class entry, so the last row wins
  outright, change type included. Nothing is merged (`LastRowWins`, `PlaceOverwrites`).
- Properties excluded at line 57 (`LastMod`, `Checksum`) only decide which rows are reported. The value queries
  at lines 94 and 104 take no property filter, so such properties can appear in a delta. The model makes no
  claim that they are absent.

## Model

| member | source | states |
|---|---|---|
| `ChangeTypes.OpName` | src/FlagLongLeadItems.ts:69 | the change type is the op code's enum name; each of "Insert", "Update", "Delete" names exactly one op code |
| `PropertyChanges.QuerySingleRow` | src/FlagLongLeadItems.ts:82-84 | the first row the query yields, or the empty row when it yields none |
| `PropertyChanges.GetPropertyChanges` | src/FlagLongLeadItems.ts:86-112 | the map the two loops build equals `Resolve`: the reference delta of the before row (BeforeDelete/BeforeUpdate, none for Insert) and the after row (AfterInsert/AfterUpdate, none for Delete), each the first row of its query or empty |
| `PropertyChanges.ResolveDelete` | src/FlagLongLeadItems.ts:88-100 | for a Delete, the keys are exactly the BeforeDelete row's keys and every entry is `{oldValue: before value}` with no newValue |
| `PropertyChanges.ResolveInsert` | src/FlagLongLeadItems.ts:102-109 | for an Insert, the keys are exactly the AfterInsert row's keys and every entry is `{newValue: after value}` with no oldValue |
| `PropertyChanges.ResolveUpdate` | src/FlagLongLeadItems.ts:92-109 | for an Update, the keys are the union of both rows' keys; oldValue is present iff the before row has the property, with its value; newValue iff the after row has it, with its value |
| `PropertyChanges.ResolveEntriesNonEmpty` | src/FlagLongLeadItems.ts:95-107 | every entry has an oldValue or a newValue |
| `PropertyChanges.NoRowContributesNothing` | src/FlagLongLeadItems.ts:82-84 | a query with no row contributes nothing: an Insert or Delete without its row gives the empty map, an Update without its after row has no newValue, and one without its before row has no oldValue |
| `PropertyChanges.DeleteReadsOnlyBeforeDelete` | src/FlagLongLeadItems.ts:92-94 | a Delete's delta depends only on the BeforeDelete query; no after-state query is consulted |
| `PropertyChanges.InsertReadsOnlyAfterInsert` | src/FlagLongLeadItems.ts:102-104 | an Insert's delta depends only on the AfterInsert query; no before-state query is consulted |
| `PropertyChanges.MergeKeepsOldValues` | src/FlagLongLeadItems.ts:105-108 | merging the after row into the entries of the before row keeps every entry and its oldValue, and leaves entries for properties the after row lacks untouched |
| `ReportAssembler.Place` | src/FlagLongLeadItems.ts:66-72 | storing an entry adds its label to the sections and its class to that label's section, with that entry; every other label and every other class of that label keeps its entry |
| `ReportAssembler.Assemble` | src/FlagLongLeadItems.ts:63-73 | the fold over the rows succeeds iff every row's instance change can be found; otherwise it fails with the first unknown change id |
| `ReportAssembler.FlagLongLeadItems` | src/FlagLongLeadItems.ts:29-79 | the method's result equals `FlagReport`: an error when the summary count is not one, the summary is unknown or a row's instance change is unknown; otherwise undefined when no section was created, else a report with the change set's wsgId, pushDate and description and the folded sections |
| `ReportAssembler.AssembledLabels` | src/FlagLongLeadItems.ts:63-72 | after the fold, the section keys are exactly the starting keys plus the labels of the rows |
| `ReportAssembler.UntouchedEntryKept` | src/FlagLongLeadItems.ts:66-72 | a (label, class) pair that no row touches keeps its entry, or its absence |
| `ReportAssembler.LastRowWins` | src/FlagLongLeadItems.ts:68-71 | `sections[l][c]` is the entry of the last row with label `l` whose instance has class `c`, whatever earlier rows stored |
| `ReportAssembler.PlaceOverwrites` | src/FlagLongLeadItems.ts:68-71 | a second entry for the same label and class replaces the first outright; nothing is merged |
| `ReportAssembler.PlaceCommutes` | src/FlagLongLeadItems.ts:66-72 | entries for different (label, class) pairs can be stored in either order with the same result |
| `ReportAssembler.StepIdempotent` | src/FlagLongLeadItems.ts:66-72 | processing the same row twice in a row gives the same sections as processing it once |
| `ReportAssembler.RepeatedLaterIgnored` | src/FlagLongLeadItems.ts:63-73 | processing a row that occurs again later among the remaining rows does not change the final sections |
| `ReportAssembler.AssembleAppend` | src/FlagLongLeadItems.ts:63-73 | folding a concatenation equals folding the second part from the sections the first part left |
| `ReportAssembler.DuplicateRowIgnored` | src/FlagLongLeadItems.ts:53-73 | removing a copy of a row that occurs again later (as the join on property-value changes produces) leaves the result unchanged |
| `ReportAssembler.AssembledWellFormed` | src/FlagLongLeadItems.ts:66-71 | every stored entry has an op-code name as change type and no empty property entry; an Insert entry has no oldValue and a Delete entry no newValue |
| `ReportAssembler.ReportAbsentIffNoRows` | src/FlagLongLeadItems.ts:35-79 | with one known summary and rows that all resolve, the result is undefined iff the query yields no row; otherwise the report carries the change set's wsgId, pushDate and description, and one section per row label |

## Left out

- The ECSQL text of lines 44-59 (the OmniClass code filter, the aspect-to-element join, the `LastMod`/`Checksum` exclusion, `ORDER BY userLabel`) runs in the database. The model takes its rows as given. No sortedness is assumed, and none is needed by any property proved.
- `extractChangeSummaries`, `attachChangeCache`, `queryChangeSummary`, `queryInstanceChange` and `buildPropertyValueChangesECSql` are SDK calls. The model takes their results as data in `Briefcase`; the SDK is not part of this model.
- `withPreparedStatement` scoping: the release of statements is not modelled.
- The use of `await`: the model is sequential.
- `FlagLongLeadItems`: the `assert` on the summary count is modelled as always throwing. If assertions are disabled, the source would go on with the first id (or with `undefined`); that behaviour is not modelled.
- `FlagLongLeadItems`: JavaScript object semantics are not modelled. A user label that is absent (`undefined`) or that names an `Object.prototype` member would behave differently in the source. Labels, class names and property names are plain strings here.
- `GetPropertyChanges`: `Object.entries` visits properties in insertion order; the model visits them in an unspecified order. The keys of a row are distinct, so the contents of the result do not depend on the order.
- `GetPropertyChanges`, `FlagLongLeadItems`: key order is not modelled. `propChanges`, `report.sections` and each section are JavaScript objects whose keys keep insertion order, and the e-mail renderer lists sections, classes and properties in that order (src/SendEmail.tsx:19-35). The model's maps are unordered, so that order is an output of the source the model does not capture.
- Failure paths other than the three kept: `extractChangeSummaries` (line 29), `attachChangeCache` (line 32) and `buildPropertyValueChangesECSql` (lines 94, 104) can fail, and `withPreparedStatement` can fail to prepare its query (lines 61, 83), for instance on an iModel without the aspect class joined at line 52. These are SDK or database failures; the model takes the query results as given and never fails there.
- The in-place mutation of `report.sections` and of the aliased `reportSection` object is modelled by value. `reportSection` is always written back to the slot it was read from, so the resulting state is the same.
- An op code outside Insert, Update and Delete cannot arise: the op code is a three-valued datatype.
- `src/MyAgent.ts`: authentication, event subscription, briefcase download, host lifecycle. All of it is I/O.
- `src/SendEmail.tsx`: HTML rendering and e-mail dispatch.
- `src/WatchSlabs.ts`: the same SDK queries, with output only to the console.
- `src/AgentConfig.ts`: environment variable loading.
