/**
 * The property delta resolver: for one instance change, read the
 * before-state and/or after-state row of its properties and build the
 * `name -> {oldValue?, newValue?}` map.
 */
module PropertyChanges {
  import opened ChangeTypes

  /** querySingleRow: the first row a query yields, or the empty row when it yields none. */
  function QuerySingleRow<V>(rows: seq<Row<V>>): (r: Row<V>)
    ensures |rows| == 0 ==> r == map[]
    ensures |rows| > 0 ==> r == rows[0]
  {
    if |rows| > 0 then rows[0] else map[]
  }

  function Lookup<V>(row: Row<V>, name: string): Option<V>
  {
    if name in row then Some(row[name]) else None
  }

  /**
   * Reference definition of a delta: one entry per property named in
   * either row, whose oldValue is the before value and whose newValue is
   * the after value, each present exactly when its row names the property.
   */
  function Delta<V>(before: Row<V>, after: Row<V>): PropertyChanges<V>
  {
    map name | name in before.Keys + after.Keys :: PropertyChange(Lookup(before, name), Lookup(after, name))
  }

  /** The before-state row getPropertyChanges reads: BeforeDelete, BeforeUpdate, or nothing for an Insert. */
  function BeforeRow<V>(db: Briefcase<V>, instanceChange: InstanceChange): Row<V>
  {
    match instanceChange.opCode
    case Insert => map[]
    case Update => QuerySingleRow(db.propertyValueRows(instanceChange, BeforeUpdate))
    case Delete => QuerySingleRow(db.propertyValueRows(instanceChange, BeforeDelete))
  }

  /** The after-state row getPropertyChanges reads: AfterInsert, AfterUpdate, or nothing for a Delete. */
  function AfterRow<V>(db: Briefcase<V>, instanceChange: InstanceChange): Row<V>
  {
    match instanceChange.opCode
    case Insert => QuerySingleRow(db.propertyValueRows(instanceChange, AfterInsert))
    case Update => QuerySingleRow(db.propertyValueRows(instanceChange, AfterUpdate))
    case Delete => map[]
  }

  /** What getPropertyChanges computes for an instance change. */
  function Resolve<V>(db: Briefcase<V>, instanceChange: InstanceChange): PropertyChanges<V>
  {
    Delta(BeforeRow(db, instanceChange), AfterRow(db, instanceChange))
  }

  /**
   * getPropertyChanges: a first loop records every before value as an
   * oldValue-only entry; a second loop sets newValue on the entry for
   * every after value, creating the entry when there is none.
   */
  method GetPropertyChanges<V>(db: Briefcase<V>, instanceChange: InstanceChange)
    returns (propChanges: PropertyChanges<V>)
    ensures propChanges == Resolve(db, instanceChange)
  {
    propChanges := map[];
    var isDelete := instanceChange.opCode == Delete;
    var isInsert := instanceChange.opCode == Insert;
    var isUpdate := instanceChange.opCode == Update;

    var before: Row<V> := map[];
    if isDelete || isUpdate {
      var state := if isDelete then BeforeDelete else BeforeUpdate;
      before := QuerySingleRow(db.propertyValueRows(instanceChange, state));
      var pending := before.Keys;
      while pending != {}
        invariant pending <= before.Keys
        invariant propChanges.Keys == before.Keys - pending
        invariant forall name :: name in propChanges ==> propChanges[name] == PropertyChange(Some(before[name]), None)
        decreases pending
      {
        var name :| name in pending;
        propChanges := propChanges[name := PropertyChange(Some(before[name]), None)];
        pending := pending - {name};
      }
    }
    assert before == BeforeRow(db, instanceChange);
    assert propChanges == Delta(before, map[]);

    var after: Row<V> := map[];
    if isInsert || isUpdate {
      var state := if isInsert then AfterInsert else AfterUpdate;
      after := QuerySingleRow(db.propertyValueRows(instanceChange, state));
      var pending := after.Keys;
      while pending != {}
        invariant pending <= after.Keys
        invariant propChanges.Keys == before.Keys + (after.Keys - pending)
        invariant forall name :: name in propChanges ==>
          propChanges[name] == PropertyChange(Lookup(before, name), if name in pending then None else Lookup(after, name))
        decreases pending
      {
        var name :| name in pending;
        var entry := if name in propChanges then propChanges[name] else PropertyChange(None, None);
        propChanges := propChanges[name := entry.(newValue := Some(after[name]))];
        pending := pending - {name};
      }
    }
    assert after == AfterRow(db, instanceChange);
  }

  /** A Delete yields exactly the BeforeDelete row's properties, each with oldValue only. */
  lemma ResolveDelete<V>(db: Briefcase<V>, instanceChange: InstanceChange)
    requires instanceChange.opCode == Delete
    ensures var before := QuerySingleRow(db.propertyValueRows(instanceChange, BeforeDelete));
      && Resolve(db, instanceChange).Keys == before.Keys
      && forall name :: name in before ==> Resolve(db, instanceChange)[name] == PropertyChange(Some(before[name]), None)
  {
  }

  /** An Insert yields exactly the AfterInsert row's properties, each with newValue only. */
  lemma ResolveInsert<V>(db: Briefcase<V>, instanceChange: InstanceChange)
    requires instanceChange.opCode == Insert
    ensures var after := QuerySingleRow(db.propertyValueRows(instanceChange, AfterInsert));
      && Resolve(db, instanceChange).Keys == after.Keys
      && forall name :: name in after ==> Resolve(db, instanceChange)[name] == PropertyChange(None, Some(after[name]))
  {
  }

  /**
   * An Update yields the properties of both rows; oldValue is present
   * exactly for the BeforeUpdate row's properties, newValue exactly for the
   * AfterUpdate row's, each carrying that row's value.
   */
  lemma ResolveUpdate<V>(db: Briefcase<V>, instanceChange: InstanceChange)
    requires instanceChange.opCode == Update
    ensures var before := QuerySingleRow(db.propertyValueRows(instanceChange, BeforeUpdate));
      var after := QuerySingleRow(db.propertyValueRows(instanceChange, AfterUpdate));
      var delta := Resolve(db, instanceChange);
      && delta.Keys == before.Keys + after.Keys
      && (forall name :: name in delta ==> (delta[name].oldValue.Some? <==> name in before))
      && (forall name :: name in delta ==> (delta[name].newValue.Some? <==> name in after))
      && (forall name :: name in before ==> delta[name].oldValue == Some(before[name]))
      && (forall name :: name in after ==> delta[name].newValue == Some(after[name]))
  {
  }

  /** No entry has both sides absent. */
  lemma ResolveEntriesNonEmpty<V>(db: Briefcase<V>, instanceChange: InstanceChange)
    ensures forall name :: name in Resolve(db, instanceChange) ==>
      Resolve(db, instanceChange)[name].oldValue.Some? || Resolve(db, instanceChange)[name].newValue.Some?
  {
  }

  /**
   * A side whose query yields no row contributes nothing: an Insert or a
   * Delete without its row resolves to the empty map, and an Update without
   * its after (before) row has no newValue (oldValue) anywhere.
   */
  lemma NoRowContributesNothing<V>(db: Briefcase<V>, instanceChange: InstanceChange)
    ensures instanceChange.opCode == Insert && db.propertyValueRows(instanceChange, AfterInsert) == []
      ==> Resolve(db, instanceChange) == map[]
    ensures instanceChange.opCode == Delete && db.propertyValueRows(instanceChange, BeforeDelete) == []
      ==> Resolve(db, instanceChange) == map[]
    ensures instanceChange.opCode == Update && db.propertyValueRows(instanceChange, AfterUpdate) == []
      ==> forall name :: name in Resolve(db, instanceChange) ==> Resolve(db, instanceChange)[name].newValue.None?
    ensures instanceChange.opCode == Update && db.propertyValueRows(instanceChange, BeforeUpdate) == []
      ==> forall name :: name in Resolve(db, instanceChange) ==> Resolve(db, instanceChange)[name].oldValue.None?
  {
  }

  /** A Delete never consults an after-state query: it depends on the BeforeDelete rows alone. */
  lemma DeleteReadsOnlyBeforeDelete<V>(db1: Briefcase<V>, db2: Briefcase<V>, instanceChange: InstanceChange)
    requires instanceChange.opCode == Delete
    requires db1.propertyValueRows(instanceChange, BeforeDelete) == db2.propertyValueRows(instanceChange, BeforeDelete)
    ensures Resolve(db1, instanceChange) == Resolve(db2, instanceChange)
  {
  }

  /** An Insert never consults a before-state query: it depends on the AfterInsert rows alone. */
  lemma InsertReadsOnlyAfterInsert<V>(db1: Briefcase<V>, db2: Briefcase<V>, instanceChange: InstanceChange)
    requires instanceChange.opCode == Insert
    requires db1.propertyValueRows(instanceChange, AfterInsert) == db2.propertyValueRows(instanceChange, AfterInsert)
    ensures Resolve(db1, instanceChange) == Resolve(db2, instanceChange)
  {
  }

  /**
   * Merging an after row into the entries built from a before row
   * (`Delta(before, map[])`, what the first loop leaves) keeps every entry
   * and its oldValue; it only adds newValue and new entries.
   */
  lemma MergeKeepsOldValues<V>(before: Row<V>, after: Row<V>)
    ensures Delta(before, map[]).Keys <= Delta(before, after).Keys
    ensures forall name :: name in Delta(before, map[]) ==>
      Delta(before, after)[name].oldValue == Delta(before, map[])[name].oldValue
    ensures forall name :: name in Delta(before, after) && name !in after ==>
      Delta(before, after)[name] == Delta(before, map[])[name]
  {
  }
}
