/** The repair tables as they are updated in place: each method follows one function of the
    service and is proved against its specification. */
module RepairDatabase {
  import opened Wrappers
  import Spec = QuantityRepair
  import opened QuantityRepair
  import opened RepairRollback
  import opened RepairCertification

  lemma NothingPerformed(db: Db, run: nat, actions: seq<Action>)
    requires forall a :: a in actions ==> ValidAction(a)
    ensures PerformAll(db, run, actions[..0]) == db
  {
  }

  lemma NextPerformed(db: Db, run: nat, actions: seq<Action>, i: nat)
    requires i < |actions| && forall a :: a in actions ==> ValidAction(a)
    ensures PerformAll(db, run, actions[..i + 1]) == Perform(PerformAll(db, run, actions[..i]), run, actions[i])
  {
    hide Perform;
    assert actions[..i + 1][..i] == actions[..i];
  }

  lemma BatchIs(db: Db, run: nat, actions: seq<Action>, batchSize: nat)
    requires forall a :: a in actions ==> ValidAction(a)
    ensures CursorOf(db, run) >= |actions| ==> Batch(db, run, actions, batchSize) == db
    ensures CursorOf(db, run) < |actions| ==>
      var rest := actions[CursorOf(db, run)..];
      var n := BatchLength(rest, batchSize, 0, 0);
      var done := PerformAll(db, run, rest[..n]);
      Batch(db, run, actions, batchSize) == done.(cursor := done.cursor[run := CursorOf(db, run) + n])
  {
    hide PerformAll, BatchLength;
  }

  class Database {
    var facts: map<Key, Fact>
    var lineage: map<Ingestion, seq<RawObject>>
    var audit: seq<AuditItem>
    var certificates: map<Ingestion, Certificate>
    var cursor: map<nat, nat>

    ghost function Value(): Db
      reads this
    {
      Db(facts, lineage, audit, certificates, cursor)
    }

    /** The earliest applied record of an item. */
    method FindPrevious(key: ItemKey) returns (found: Option<AuditItem>)
      ensures found == Previous(audit, key)
    {
      for i := 0 to |audit|
        invariant Previous(audit[..i], key) == None
      {
        assert audit[..i + 1][..i] == audit[..i];
        if audit[i].item == key && audit[i].outcome in {Applied, AlreadyApplied} {
          PreviousStable(audit, i + 1, key);
          return Some(audit[i]);
        }
      }
      assert audit[..|audit|] == audit;
      found := None;
    }

    method ApplyItem(run: nat, item: Item)
      modifies this
      ensures Value() == Spec.ApplyItem(old(Value()), run, item)
    {
      var key := ItemKeyOf(item);
      var previous := FindPrevious(key);
      var current := if item.key in facts then Some(facts[item.key]) else None;
      var already := previous.Some? && current.Some? && Some(current.value) == previous.value.after
        && Some(current.value.ingestion) == previous.value.derived;
      var matched := current == Some(item.before) && current.value.ingestion == item.original;
      if matched {
        matched := Evaluate(lineage, item.key, current.value) == item.found;
      }
      assert already == IsAlreadyApplied(Value(), item) && matched == IsMatched(Value(), item);
      var id, after := None, None;
      if already {
        id, after := previous.value.derived, previous.value.after;
      }
      if matched {
        var own := Derived(run, key);
        var raws := if item.original in lineage then lineage[item.original] else [];
        lineage := lineage[own := Matching(raws, item.key)];
        facts := facts[item.key := item.before.(volume := item.found.target, ingestion := own)];
        id, after := Some(own), Some(facts[item.key]);
        certificates := certificates[own := Certified(run)];
      }
      audit := audit + [AuditItem(run, key, item.before, after, id,
                                  if already then AlreadyApplied else if matched then Applied else Conflict)];
    }

    /** The item of a group for a key. */
    method FindItem(group: seq<Item>, key: Key) returns (i: nat)
      ensures i <= |group| && (i < |group| ==> group[i].key == key)
      ensures i == |group| ==> !Covered(group, key)
    {
      i := 0;
      while i < |group| && group[i].key != key
        invariant i <= |group| && forall j :: 0 <= j < i ==> group[j].key != key
      {
        i := i + 1;
      }
    }

    /** Every locked row is in the group and still matches Raw. */
    method CheckRows(group: seq<Item>, rows: set<Key>) returns (ok: bool)
      requires DistinctItems(group) && rows <= facts.Keys
      ensures ok <==> forall key :: key in rows ==> RowCertifiable(Value(), group, key)
    {
      var todo := rows;
      while todo != {}
        invariant todo <= rows
        invariant forall key :: key in rows - todo ==> RowCertifiable(Value(), group, key)
        decreases todo
      {
        var key :| key in todo;
        var i := FindItem(group, key);
        if i == |group| {
          return false;
        }
        if facts[key] != group[i].before || Evaluate(lineage, key, facts[key]) != group[i].found {
          assert !RowCertifiable(Value(), group, key);
          return false;
        }
        assert Rechecks(Value(), group[i], facts[key]);
        todo := todo - {key};
      }
      ok := true;
    }

    method CertifyGroup(run: nat, group: seq<Item>)
      requires |group| > 0 && DistinctItems(group)
      modifies this`certificates
      ensures Value() == Spec.CertifyGroup(old(Value()), run, group)
    {
      var id := group[0].original;
      var incomplete := |group| != group[0].ingestionRows || |group| > MAX_CERTIFICATION_ROWS;
      var complete := Eligible(group);
      if complete {
        var rows := set key | key in facts && facts[key].ingestion == id;
        assert rows == Referencing(Value(), id);
        incomplete := |rows| != |group|;
        complete := false;
        if |rows| == |group| {
          complete := CheckRows(group, rows);
        }
      }
      assert complete == GroupComplete(Value(), group) && incomplete == IncompleteScope(Value(), group);
      if !incomplete || id !in certificates || !certificates[id].Certified? {
        certificates := certificates[id := if complete then Certified(run) else Withheld(run)];
      }
    }

    /** How many pending actions one transaction takes. */
    method TakePending(actions: seq<Action>, batchSize: nat) returns (n: nat)
      ensures n == BatchLength(actions, batchSize, 0, 0)
    {
      n := 0;
      var locked := 0;
      while n < |actions| && !(n > 0 && locked + Cost(actions[n]) > batchSize)
        invariant n <= |actions| && locked == TotalCost(actions[..n]) && (n <= 1 || locked <= batchSize)
        invariant BatchLength(actions, batchSize, n, locked) == BatchLength(actions, batchSize, 0, 0)
      {
        assert actions[..n + 1][..n] == actions[..n];
        locked := locked + Cost(actions[n]);
        n := n + 1;
      }
    }

    ghost predicate WellFormed(actions: seq<Action>) {
      forall a :: a in actions ==> ValidAction(a) && (a.CertifyAll? ==> DistinctItems(a.group))
    }

    /** One committed transaction. */
    method RunBatch(run: nat, actions: seq<Action>, batchSize: nat)
      requires WellFormed(actions)
      modifies this
      ensures Value() == Batch(old(Value()), run, actions, batchSize)
    {
      hide Spec.ApplyItem, Spec.CertifyGroup, BatchLength, PerformAll, Batch;
      ghost var before := Value();
      BatchIs(before, run, actions, batchSize);
      var start := if run in cursor then cursor[run] else 0;
      if start >= |actions| { return; }
      var pending := actions[start..];
      var n := TakePending(pending, batchSize);
      NothingPerformed(before, run, pending);
      for i := 0 to n
        invariant n == BatchLength(pending, batchSize, 0, 0)
        invariant Value() == PerformAll(before, run, pending[..i])
      {
        assert pending[i] in actions;
        NextPerformed(before, run, pending, i);
        match pending[i]
        case RepairOne(item) => ApplyItem(run, item);
        case CertifyAll(group) => CertifyGroup(run, group);
      }
      cursor := cursor[run := start + n];
    }

    /** `apply_plan`, killed after at most `batches` transactions: from any progress point of any
        earlier execution it leaves a later progress point, and it finishes when it is not killed. */
    method ApplyPlan(ghost origin: Db, run: nat, actions: seq<Action>, batchSize: nat, batches: nat) returns (finished: bool)
      requires WellFormed(actions) && 1 <= batchSize <= 500
      requires CursorOf(Value(), run) <= |actions| && Value() == Progress(origin, run, actions, CursorOf(Value(), run))
      modifies this
      ensures old(CursorOf(Value(), run)) <= CursorOf(Value(), run) <= |actions|
      ensures Value() == Progress(origin, run, actions, CursorOf(Value(), run))
      ensures finished <==> CursorOf(Value(), run) == |actions|
      ensures !finished ==> CursorOf(Value(), run) >= old(CursorOf(Value(), run)) + batches
    {
      for i := 0 to batches
        invariant old(CursorOf(Value(), run)) <= CursorOf(Value(), run) <= |actions|
        invariant Value() == Progress(origin, run, actions, CursorOf(Value(), run))
        invariant CursorOf(Value(), run) == |actions| || CursorOf(Value(), run) >= old(CursorOf(Value(), run)) + i
      {
        ghost var c := CursorOf(Value(), run);
        ghost var d := BatchIsProgress(origin, run, actions, c, batchSize);
        RunBatch(run, actions, batchSize);
        assert CursorOf(Value(), run) == d;
      }
      finished := (if run in cursor then cursor[run] else 0) >= |actions|;
    }

    /** One record of `rollback_plan`. */
    method RollbackRecord(i: nat)
      requires i < |audit|
      modifies this
      ensures Value() == RollbackAt(old(Value()), i)
      ensures |audit| == |old(audit)| && forall j :: 0 <= j < |audit| && j != i ==> audit[j] == old(audit)[j]
    {
      var record := audit[i];
      var key := record.item.key;
      var matches := key in facts && Some(facts[key]) == record.after && Some(facts[key].ingestion) == record.derived;
      if matches {
        var id := facts[key].ingestion;
        facts := facts[key := facts[key].(volume := record.before.volume, ingestion := record.item.original)];
        certificates := certificates[record.item.original := Withheld(record.run)];
        certificates := certificates[id := Withheld(record.run)];
      }
      audit := audit[i := record.(outcome := if matches then RolledBack else RollbackConflict)];
    }

    /** `rollback_plan`: rolls back each applied record of the run once and leaves none. */
    method Rollback(run: nat) returns (ghost order: seq<nat>)
      modifies this
      ensures SelectsApplied(old(Value()), run, order) && SelectsAll(old(Value()), run, order)
      ensures Value() == RollbackAll(old(Value()), order)
    {
      hide RollbackAt, RollbackAll, SelectsApplied;
      order := [];
      ghost var before := Value();
      NothingSelected(before, run);
      for i := 0 to |audit|
        invariant |audit| == |before.audit| && forall j :: i <= j < |audit| ==> audit[j] == before.audit[j]
        invariant SelectsApplied(before, run, order) && InRange(before, order) && Value() == RollbackAll(before, order)
        invariant forall k :: 0 <= k < |order| ==> order[k] < i
        invariant forall j :: 0 <= j < i && before.audit[j].run == run && before.audit[j].outcome == Applied ==> j in order
      {
        if audit[i].run == run && audit[i].outcome == Applied {
          SelectNext(before, run, order, i);
          RollbackRecord(i);
          order := order + [i];
        }
      }
    }
  }

  ghost predicate InRange(db: Db, order: seq<nat>) {
    forall k :: 0 <= k < |order| ==> order[k] < |db.audit|
  }

  lemma NothingSelected(db: Db, run: nat)
    ensures SelectsApplied(db, run, []) && RollbackAll(db, []) == db
  {
  }

  lemma SelectNext(db: Db, run: nat, order: seq<nat>, i: nat)
    requires SelectsApplied(db, run, order) && InRange(db, order)
    requires i < |db.audit| && db.audit[i].run == run && db.audit[i].outcome == Applied
    requires forall k :: 0 <= k < |order| ==> order[k] < i
    ensures SelectsApplied(db, run, order + [i]) && InRange(db, order + [i])
    ensures RollbackAll(db, order + [i]) == RollbackAt(RollbackAll(db, order), i)
  {
    assert (order + [i])[..|order + [i]| - 1] == order;
  }

  lemma {:induction false} PreviousStable(audit: seq<AuditItem>, n: nat, key: ItemKey)
    requires n <= |audit| && Previous(audit[..n], key).Some?
    ensures Previous(audit, key) == Previous(audit[..n], key)
  {
    if n == |audit| {
      assert audit[..n] == audit;
    } else {
      assert audit[..|audit| - 1][..n] == audit[..n];
      PreviousStable(audit[..|audit| - 1], n, key);
    }
  }
}
