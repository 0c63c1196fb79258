/**
 * The report assembler of flagLongLeadItems: fold the long-lead-item rows
 * into `sections[userLabel][className] = {changeType, propertyChanges}`,
 * and suppress the report when no section was created.
 */
module ReportAssembler {
  import opened ChangeTypes
  import opened PropertyChanges

  /** Every row names an instance change queryInstanceChange can find. */
  predicate Resolvable<V>(db: Briefcase<V>, rows: seq<ChangeRow>)
  {
    forall i :: 0 <= i < |rows| ==> rows[i].changeId in db.instanceChanges
  }

  /** The entry one instance change contributes: its op code's name and its property delta. */
  function EntryFor<V>(db: Briefcase<V>, instanceChange: InstanceChange): ClassEntry<V>
  {
    ClassEntry(OpName(instanceChange.opCode), Resolve(db, instanceChange))
  }

  /**
   * Store an entry under a userLabel and a class name, creating the userLabel's
   * section when absent and replacing whatever entry that class had.
   */
  function Place<V>(sections: Sections<V>, userLabel: string, className: string, entry: ClassEntry<V>): (r: Sections<V>)
    ensures r.Keys == sections.Keys + {userLabel}
    ensures className in r[userLabel] && r[userLabel][className] == entry
    ensures userLabel in sections ==> r[userLabel].Keys == sections[userLabel].Keys + {className}
    ensures userLabel !in sections ==> r[userLabel].Keys == {className}
    ensures forall l :: l in sections && l != userLabel ==> r[l] == sections[l]
    ensures forall c :: userLabel in sections && c in sections[userLabel] && c != className ==> r[userLabel][c] == sections[userLabel][c]
  {
    var section := if userLabel in sections then sections[userLabel] else map[];
    sections[userLabel := section[className := entry]]
  }

  /** The class name a row's instance change has. */
  function ClassOf<V>(db: Briefcase<V>, row: ChangeRow): string
    requires row.changeId in db.instanceChanges
  {
    db.instanceChanges[row.changeId].className
  }

  /** One iteration of the loop body (lines 64-72) on an existing row. */
  function Step<V>(db: Briefcase<V>, sections: Sections<V>, row: ChangeRow): Sections<V>
    requires row.changeId in db.instanceChanges
  {
    var instanceChange := db.instanceChanges[row.changeId];
    Place(sections, row.userLabel, instanceChange.className, EntryFor(db, instanceChange))
  }

  /**
   * The loop over the rows, in order, from the sections built so far.
   * It fails, with the first unknown change id, exactly when some row's
   * instance change cannot be found.
   */
  function Assemble<V>(db: Briefcase<V>, sections: Sections<V>, rows: seq<ChangeRow>): (r: Result<Sections<V>>)
    ensures r.Success? <==> Resolvable(db, rows)
    ensures r.Failure? ==> exists i :: (0 <= i < |rows| && rows[i].changeId !in db.instanceChanges
      && r.error == InstanceChangeNotFound(rows[i].changeId)
      && forall j :: 0 <= j < i ==> rows[j].changeId in db.instanceChanges)
    decreases |rows|
  {
    if rows == [] then Success(sections)
    else if rows[0].changeId !in db.instanceChanges then Failure(InstanceChangeNotFound(rows[0].changeId))
    else
      var r := Assemble(db, Step(db, sections, rows[0]), rows[1..]);
      assert r.Failure? ==> exists i :: (0 <= i < |rows| && rows[i].changeId !in db.instanceChanges
        && r.error == InstanceChangeNotFound(rows[i].changeId)
        && forall j :: 0 <= j < i ==> rows[j].changeId in db.instanceChanges)
      by {
        if r.Failure? {
          var k :| 0 <= k < |rows[1..]| && rows[1..][k].changeId !in db.instanceChanges
            && r.error == InstanceChangeNotFound(rows[1..][k].changeId)
            && forall j :: 0 <= j < k ==> rows[1..][j].changeId in db.instanceChanges;
          assert rows[k + 1] == rows[1..][k];
          assert forall j :: 0 < j < k + 1 ==> rows[j] == rows[1..][j - 1];
        }
      }
      r
  }

  /** What flagLongLeadItems returns: undefined (None) when no section was created. */
  function FlagReport<V>(db: Briefcase<V>): Result<Option<ChangedElementReport<V>>>
  {
    if |db.extractedSummaryIds| != 1 then Failure(SummaryCountNotOne(|db.extractedSummaryIds|))
    else if db.extractedSummaryIds[0] !in db.summaries then Failure(SummaryNotFound(db.extractedSummaryIds[0]))
    else
      var changeSummary := db.summaries[db.extractedSummaryIds[0]];
      match Assemble(db, map[], db.longLeadRows(changeSummary.id))
      case Failure(e) => Failure(e)
      case Success(sections) =>
        if |sections| == 0 then Success(None)
        else Success(Some(ChangedElementReport(changeSummary.changeSet.wsgId, changeSummary.changeSet.pushDate,
                                               changeSummary.changeSet.description, sections)))
  }

  /**
   * flagLongLeadItems, from the extracted summary ids on: check there is
   * exactly one, start the report from its change set, fold every row into
   * the sections, and return the report unless it has no section.
   */
  method FlagLongLeadItems<V>(db: Briefcase<V>) returns (result: Result<Option<ChangedElementReport<V>>>)
    ensures result == FlagReport(db)
  {
    var changeSummaryIds := db.extractedSummaryIds;
    if |changeSummaryIds| != 1 {
      return Failure(SummaryCountNotOne(|changeSummaryIds|));
    }
    if changeSummaryIds[0] !in db.summaries {
      return Failure(SummaryNotFound(changeSummaryIds[0]));
    }
    var changeSummary := db.summaries[changeSummaryIds[0]];
    var report: ChangedElementReport<V> := ChangedElementReport(changeSummary.changeSet.wsgId,
      changeSummary.changeSet.pushDate, changeSummary.changeSet.description, map[]);

    var rows := db.longLeadRows(changeSummary.id);
    var i := 0;
    while i < |rows|
      invariant 0 <= i <= |rows|
      invariant Assemble(db, map[], rows) == Assemble(db, report.sections, rows[i..])
      invariant report.id == changeSummary.changeSet.wsgId && report.date == changeSummary.changeSet.pushDate
      invariant report.description == changeSummary.changeSet.description
    {
      var row := rows[i];
      var reportSection := if row.userLabel in report.sections then report.sections[row.userLabel] else map[];
      if row.changeId !in db.instanceChanges {
        return Failure(InstanceChangeNotFound(row.changeId));
      }
      var instanceChange := db.instanceChanges[row.changeId];
      var propertyChanges := GetPropertyChanges(db, instanceChange);
      reportSection := reportSection[instanceChange.className := ClassEntry(OpName(instanceChange.opCode), propertyChanges)];
      report := report.(sections := report.sections[row.userLabel := reportSection]);
      assert rows[i..][1..] == rows[i + 1..];
      i := i + 1;
    }

    if |report.sections| == 0 {
      return Success(None);
    }
    return Success(Some(report));
  }

  /** The labels the rows carry. */
  function Labels(rows: seq<ChangeRow>): set<string>
  {
    set i | 0 <= i < |rows| :: rows[i].userLabel
  }

  /** After the fold, the section keys are the keys already there plus exactly the rows' labels. */
  lemma {:induction false} AssembledLabels<V>(db: Briefcase<V>, sections: Sections<V>, rows: seq<ChangeRow>)
    requires Resolvable(db, rows)
    ensures Assemble(db, sections, rows).value.Keys == sections.Keys + Labels(rows)
    decreases |rows|
  {
    if rows != [] {
      AssembledLabels(db, Step(db, sections, rows[0]), rows[1..]);
      assert Labels(rows) == {rows[0].userLabel} + Labels(rows[1..]) by {
        forall l | l in Labels(rows) ensures l in {rows[0].userLabel} + Labels(rows[1..]) {
          var i :| 0 <= i < |rows| && rows[i].userLabel == l;
          if i > 0 { assert rows[1..][i - 1] == rows[i]; }
        }
        forall l | l in Labels(rows[1..]) ensures l in Labels(rows) {
          var i :| 0 <= i < |rows[1..]| && rows[1..][i].userLabel == l;
          assert rows[i + 1] == rows[1..][i];
        }
      }
    }
  }

  /**
   * A (userLabel, class) pair no row touches keeps its entry, or its absence,
   * through the fold.
   */
  lemma {:induction false} UntouchedEntryKept<V>(db: Briefcase<V>, sections: Sections<V>, rows: seq<ChangeRow>,
                                                 userLabel: string, className: string)
    requires Resolvable(db, rows)
    requires forall i :: 0 <= i < |rows| ==> rows[i].userLabel != userLabel || ClassOf(db, rows[i]) != className
    ensures var out := Assemble(db, sections, rows).value;
      && ((userLabel in out && className in out[userLabel]) <==> (userLabel in sections && className in sections[userLabel]))
      && (userLabel in sections && className in sections[userLabel] ==> out[userLabel][className] == sections[userLabel][className])
    decreases |rows|
  {
    if rows != [] {
      assert forall i :: 0 <= i < |rows[1..]| ==> rows[1..][i] == rows[i + 1];
      UntouchedEntryKept(db, Step(db, sections, rows[0]), rows[1..], userLabel, className);
    }
  }

  /**
   * The last row with a given userLabel whose instance change has a given class
   * decides that pair's entry outright: it is that row's entry, whatever
   * earlier rows stored there.
   */
  lemma {:induction false} LastRowWins<V>(db: Briefcase<V>, sections: Sections<V>, rows: seq<ChangeRow>, i: nat)
    requires Resolvable(db, rows)
    requires i < |rows|
    requires forall j :: i < j < |rows| ==>
      rows[j].userLabel != rows[i].userLabel || ClassOf(db, rows[j]) != ClassOf(db, rows[i])
    ensures var out := Assemble(db, sections, rows).value;
      && rows[i].userLabel in out && ClassOf(db, rows[i]) in out[rows[i].userLabel]
      && out[rows[i].userLabel][ClassOf(db, rows[i])] == EntryFor(db, db.instanceChanges[rows[i].changeId])
    decreases |rows|
  {
    assert forall j :: 0 <= j < |rows[1..]| ==> rows[1..][j] == rows[j + 1];
    if i == 0 {
      UntouchedEntryKept(db, Step(db, sections, rows[0]), rows[1..], rows[0].userLabel, ClassOf(db, rows[0]));
    } else {
      LastRowWins(db, Step(db, sections, rows[0]), rows[1..], i - 1);
    }
  }

  /** Storing a second entry under the same userLabel and class replaces the first outright. */
  lemma PlaceOverwrites<V>(sections: Sections<V>, userLabel: string, className: string, e1: ClassEntry<V>, e2: ClassEntry<V>)
    ensures Place(Place(sections, userLabel, className, e1), userLabel, className, e2) == Place(sections, userLabel, className, e2)
  {
    var a := Place(Place(sections, userLabel, className, e1), userLabel, className, e2);
    var b := Place(sections, userLabel, className, e2);
    assert a[userLabel] == b[userLabel];
  }

  /** Entries under different (userLabel, class) pairs can be stored in either order. */
  lemma PlaceCommutes<V>(sections: Sections<V>, l1: string, c1: string, e1: ClassEntry<V>,
                         l2: string, c2: string, e2: ClassEntry<V>)
    requires l1 != l2 || c1 != c2
    ensures Place(Place(sections, l1, c1, e1), l2, c2, e2) == Place(Place(sections, l2, c2, e2), l1, c1, e1)
  {
    var a := Place(Place(sections, l1, c1, e1), l2, c2, e2);
    var b := Place(Place(sections, l2, c2, e2), l1, c1, e1);
    assert a.Keys == b.Keys;
    forall l | l in a ensures a[l] == b[l] {
      assert a[l].Keys == b[l].Keys;
    }
  }

  /** Processing a row a second time straight away changes nothing. */
  lemma StepIdempotent<V>(db: Briefcase<V>, sections: Sections<V>, row: ChangeRow)
    requires row.changeId in db.instanceChanges
    ensures Step(db, Step(db, sections, row), row) == Step(db, sections, row)
  {
    var instanceChange := db.instanceChanges[row.changeId];
    PlaceOverwrites(sections, row.userLabel, instanceChange.className, EntryFor(db, instanceChange), EntryFor(db, instanceChange));
  }

  /** Processing `row` and then `rows` is the same as `rows` alone, when `row` occurs again in `rows`. */
  lemma {:induction false} RepeatedLaterIgnored<V>(db: Briefcase<V>, sections: Sections<V>, row: ChangeRow, rows: seq<ChangeRow>)
    requires Resolvable(db, rows)
    requires row in rows
    ensures Assemble(db, Step(db, sections, row), rows) == Assemble(db, sections, rows)
    decreases |rows|
  {
    var x := rows[0];
    var rest := rows[1..];
    assert forall j :: 0 <= j < |rest| ==> rest[j] == rows[j + 1];
    var ix := db.instanceChanges[x.changeId];
    var ir := db.instanceChanges[row.changeId];
    if x.userLabel == row.userLabel && ix.className == ir.className {
      PlaceOverwrites(sections, row.userLabel, ir.className, EntryFor(db, ir), EntryFor(db, ix));
      assert Step(db, Step(db, sections, row), x) == Step(db, sections, x);
    } else {
      PlaceCommutes(sections, row.userLabel, ir.className, EntryFor(db, ir), x.userLabel, ix.className, EntryFor(db, ix));
      assert Step(db, Step(db, sections, row), x) == Step(db, Step(db, sections, x), row);
      assert row in rest;
      RepeatedLaterIgnored(db, Step(db, sections, x), row, rest);
    }
  }

  /** The fold over a concatenation is the fold over the second part from where the first left off. */
  lemma {:induction false} AssembleAppend<V>(db: Briefcase<V>, sections: Sections<V>, front: seq<ChangeRow>, back: seq<ChangeRow>)
    requires Resolvable(db, front)
    ensures Assemble(db, sections, front + back) == Assemble(db, Assemble(db, sections, front).value, back)
    decreases |front|
  {
    if front == [] {
      assert front + back == back;
    } else {
      assert (front + back)[1..] == front[1..] + back;
      assert forall j :: 0 <= j < |front[1..]| ==> front[1..][j] == front[j + 1];
      AssembleAppend(db, Step(db, sections, front[0]), front[1..], back);
    }
  }

  /**
   * A row that the join repeats (the same change id once per changed
   * property) is harmless: removing a copy of a row that occurs again later
   * leaves the sections unchanged.
   */
  lemma DuplicateRowIgnored<V>(db: Briefcase<V>, sections: Sections<V>, front: seq<ChangeRow>, row: ChangeRow, back: seq<ChangeRow>)
    requires Resolvable(db, front + back)
    requires row in back
    ensures Assemble(db, sections, front + [row] + back) == Assemble(db, sections, front + back)
  {
    assert forall j :: 0 <= j < |front| ==> front[j] == (front + back)[j];
    assert forall j :: 0 <= j < |back| ==> back[j] == (front + back)[|front| + j];
    assert Resolvable(db, front);
    assert Resolvable(db, back);
    var mid := Assemble(db, sections, front).value;
    assert front + [row] + back == front + ([row] + back);
    AssembleAppend(db, sections, front, [row] + back);
    AssembleAppend(db, sections, front, back);
    assert ([row] + back)[1..] == back;
    RepeatedLaterIgnored(db, mid, row, back);
  }

  /**
   * What every stored entry satisfies: its change type is an op code name,
   * every property has at least one side, an Insert has no oldValue and a
   * Delete no newValue.
   */
  predicate WellFormedEntry<V>(entry: ClassEntry<V>)
  {
    && entry.changeType in {"Insert", "Update", "Delete"}
    && (forall name :: name in entry.propertyChanges ==>
         entry.propertyChanges[name].oldValue.Some? || entry.propertyChanges[name].newValue.Some?)
    && (entry.changeType == "Insert" ==> forall name :: name in entry.propertyChanges ==> entry.propertyChanges[name].oldValue.None?)
    && (entry.changeType == "Delete" ==> forall name :: name in entry.propertyChanges ==> entry.propertyChanges[name].newValue.None?)
  }

  predicate WellFormedSections<V>(sections: Sections<V>)
  {
    forall l, c :: l in sections && c in sections[l] ==> WellFormedEntry(sections[l][c])
  }

  /** Every entry the fold stores is well formed, given well-formed sections to start from. */
  lemma {:induction false} AssembledWellFormed<V>(db: Briefcase<V>, sections: Sections<V>, rows: seq<ChangeRow>)
    requires Resolvable(db, rows)
    requires WellFormedSections(sections)
    ensures WellFormedSections(Assemble(db, sections, rows).value)
    decreases |rows|
  {
    if rows != [] {
      var instanceChange := db.instanceChanges[rows[0].changeId];
      ResolveEntriesNonEmpty(db, instanceChange);
      var next := Step(db, sections, rows[0]);
      assert WellFormedEntry(EntryFor(db, instanceChange));
      assert WellFormedSections(next);
      assert forall j :: 0 <= j < |rows[1..]| ==> rows[1..][j] == rows[j + 1];
      AssembledWellFormed(db, next, rows[1..]);
    }
  }

  /**
   * With one extracted summary that can be found and rows that all resolve,
   * the result is undefined exactly when the query yields no row; otherwise
   * the report carries the change set's id, push date and description and
   * one section per row userLabel.
   */
  lemma ReportAbsentIffNoRows<V>(db: Briefcase<V>)
    requires |db.extractedSummaryIds| == 1 && db.extractedSummaryIds[0] in db.summaries
    requires Resolvable(db, db.longLeadRows(db.summaries[db.extractedSummaryIds[0]].id))
    ensures var changeSummary := db.summaries[db.extractedSummaryIds[0]];
      var rows := db.longLeadRows(changeSummary.id);
      && FlagReport(db).Success?
      && (FlagReport(db).value.None? <==> rows == [])
      && (FlagReport(db).value.Some? ==>
            && FlagReport(db).value.value.id == changeSummary.changeSet.wsgId
            && FlagReport(db).value.value.date == changeSummary.changeSet.pushDate
            && FlagReport(db).value.value.description == changeSummary.changeSet.description
            && FlagReport(db).value.value.sections.Keys == Labels(rows))
  {
    var rows := db.longLeadRows(db.summaries[db.extractedSummaryIds[0]].id);
    AssembledLabels(db, map[], rows);
    if rows != [] {
      assert rows[0].userLabel in Labels(rows);
    }
  }
}
