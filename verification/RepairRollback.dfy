/** Undoing a repair: applying any part of a plan and then rolling back its applied records
    restores every fact. */
module RepairRollback {
  import opened Wrappers
  import opened QuantityRepair

  /** What applying one item writes. */
  lemma ApplyWrites(db: Db, run: nat, item: Item) returns (record: AuditItem)
    requires AuditSound(db)
    ensures ApplyItem(db, run, item).audit == db.audit + [record]
    ensures record.run == run && record.item == ItemKeyOf(item) && record.before == item.before
    ensures record.outcome == Applied <==> IsMatched(db, item)
    ensures IsMatched(db, item) ==>
      && record.after == Some(Repaired(run, item)) && record.derived == Some(Derived(run, ItemKeyOf(item)))
      && ApplyItem(db, run, item).facts == db.facts[item.key := Repaired(run, item)]
    ensures !IsMatched(db, item) ==> ApplyItem(db, run, item).facts == db.facts
  {
    NeverBothMatchedAndApplied(db, item);
    hide Evaluate, Matching, Previous, IsAlreadyApplied, IsMatched, AuditSound;
    record := ApplyItem(db, run, item).audit[|db.audit|];
  }

  // ---------------------------------------------------------------------------
  // What can be undone
  // ---------------------------------------------------------------------------

  /** An applied record whose fact stands exactly as recorded, and whose recorded original state is
      the fact the run found. */
  ghost predicate Reversible(origin: Db, db: Db, record: AuditItem) {
    && StillAsApplied(db, record)
    && Current(origin, record.item.key) == Some(record.before)
    && record.item.original == record.before.ingestion
    && record.after.value.rest == record.before.rest
  }

  /** `db` is `origin` plus repairs of `run` that can all be undone; nothing else differs. */
  ghost predicate Undoable(origin: Db, db: Db, run: nat) {
    && |origin.audit| <= |db.audit|
    && (forall i :: |origin.audit| <= i < |db.audit| ==> db.audit[i].run == run)
    && (forall i :: |origin.audit| <= i < |db.audit| && db.audit[i].outcome == Applied ==> Reversible(origin, db, db.audit[i]))
    && (forall i, j :: |origin.audit| <= i < j < |db.audit| ==> db.audit[i].item.key != db.audit[j].item.key)
    && (forall key :: Current(db, key) == Current(origin, key) || RecordedApplied(origin, db, key))
  }

  ghost predicate RecordedApplied(origin: Db, db: Db, key: Key) {
    exists i :: |origin.audit| <= i < |db.audit| && db.audit[i].outcome == Applied && db.audit[i].item.key == key
  }

  ghost predicate KeyUnused(origin: Db, db: Db, key: Key) {
    forall i :: |origin.audit| <= i < |db.audit| ==> db.audit[i].item.key != key
  }

  /** Writing one further fact and its record keeps everything undoable. */
  lemma RepairIsUndoable(origin: Db, db: Db, after: Db, run: nat, record: AuditItem)
    requires Undoable(origin, db, run) && KeyUnused(origin, db, record.item.key)
    requires record.run == run && after.audit == db.audit + [record]
    requires record.outcome == Applied ==>
      && Current(db, record.item.key) == Some(record.before) && record.before.ingestion == record.item.original
      && record.after.Some? && record.derived == Some(record.after.value.ingestion) && record.after.value.rest == record.before.rest
      && after.facts == db.facts[record.item.key := record.after.value]
    requires record.outcome != Applied ==> after.facts == db.facts
    ensures Undoable(origin, after, run)
  {
    var n := |db.audit|;
    assert !RecordedApplied(origin, db, record.item.key);
    forall key | key != record.item.key ensures Current(after, key) == Current(db, key) {}
    forall i | |origin.audit| <= i < n + 1 && after.audit[i].outcome == Applied ensures Reversible(origin, after, after.audit[i]) {
      if i < n {
        assert after.audit[i] == db.audit[i];
        assert Reversible(origin, db, db.audit[i]);
      }
    }
    forall key ensures Current(after, key) == Current(origin, key) || RecordedApplied(origin, after, key) {
      if RecordedApplied(origin, db, key) {
        var i :| |origin.audit| <= i < n && db.audit[i].outcome == Applied && db.audit[i].item.key == key;
        assert after.audit[i] == db.audit[i];
      } else if key == record.item.key && record.outcome == Applied {
        assert after.audit[n].item.key == key;
      }
    }
  }

  lemma ApplyIsUndoable(origin: Db, db: Db, run: nat, item: Item)
    requires Undoable(origin, db, run) && AuditSound(db) && KeyUnused(origin, db, item.key)
    ensures Undoable(origin, ApplyItem(db, run, item), run)
    ensures forall key :: KeyUnused(origin, db, key) && key != item.key ==> KeyUnused(origin, ApplyItem(db, run, item), key)
  {
    var record := ApplyWrites(db, run, item);
    var after := ApplyItem(db, run, item);
    assert IsMatched(db, item) ==> Current(db, item.key) == Some(item.before) && item.before.ingestion == item.original;
    hide ApplyItem, IsMatched, AuditSound, Undoable;
    RepairIsUndoable(origin, db, after, run, record);
    forall key | KeyUnused(origin, db, key) && key != item.key ensures KeyUnused(origin, after, key) {
      forall i | |origin.audit| <= i < |after.audit| ensures after.audit[i].item.key != key {}
    }
  }

  lemma CertifyIsUndoable(origin: Db, db: Db, run: nat, group: seq<Item>)
    requires Undoable(origin, db, run) && |group| > 0
    ensures Undoable(origin, CertifyGroup(db, run, group), run)
    ensures forall key :: KeyUnused(origin, db, key) ==> KeyUnused(origin, CertifyGroup(db, run, group), key)
  {
    var after := CertifyGroup(db, run, group);
    hide CertifyGroup;
    assert after.facts == db.facts && after.audit == db.audit;
    forall key ensures Current(after, key) == Current(db, key) {}
    forall i | |origin.audit| <= i < |after.audit| && after.audit[i].outcome == Applied ensures Reversible(origin, after, after.audit[i]) {
      assert Reversible(origin, db, db.audit[i]);
    }
    forall key ensures Current(after, key) == Current(origin, key) || RecordedApplied(origin, after, key) {
      assert RecordedApplied(origin, db, key) ==> RecordedApplied(origin, after, key);
    }
  }

  ghost predicate Fresh(actions: seq<Action>, key: Key) {
    forall i :: 0 <= i < |actions| && actions[i].RepairOne? ==> actions[i].item.key != key
  }

  /** Any part of a plan is undoable. */
  lemma {:induction false} ActionsAreUndoable(origin: Db, run: nat, actions: seq<Action>)
    requires (forall a :: a in actions ==> ValidAction(a)) && DistinctKeys(actions) && AuditSound(origin)
    ensures Undoable(origin, PerformAll(origin, run, actions), run) && AuditSound(PerformAll(origin, run, actions))
    ensures forall key :: Fresh(actions, key) ==> KeyUnused(origin, PerformAll(origin, run, actions), key)
  {
    hide ApplyItem, CertifyGroup, AuditSound;
    if |actions| == 0 {
    } else {
      var n := |actions| - 1;
      ActionsAreUndoable(origin, run, actions[..n]);
      ActionsKeepAuditSound(origin, run, actions);
      var db := PerformAll(origin, run, actions[..n]);
      forall key | Fresh(actions, key) ensures Fresh(actions[..n], key) {}
      hide Undoable, KeyUnused;
      assert ValidAction(actions[n]);
      match actions[n]
      case RepairOne(item) =>
        assert Fresh(actions[..n], item.key);
        ApplyIsUndoable(origin, db, run, item);
        forall key | Fresh(actions, key) ensures key != item.key { assert actions[n].item.key != key; }
      case CertifyAll(group) =>
        CertifyIsUndoable(origin, db, run, group);
    }
  }

  // ---------------------------------------------------------------------------
  // Undoing
  // ---------------------------------------------------------------------------

  /** Rolling back one applied record restores its fact and leaves the others undoable. */
  lemma RollbackUndoesOne(origin: Db, db: Db, run: nat, i: nat)
    requires Undoable(origin, db, run) && |origin.audit| <= i < |db.audit| && db.audit[i].outcome == Applied
    ensures Undoable(origin, RollbackAt(db, i), run)
    ensures RollbackAt(db, i).audit == db.audit[i := db.audit[i].(outcome := RolledBack)]
  {
    var record, after := db.audit[i], RollbackAt(db, i);
    assert Reversible(origin, db, record);
    forall key | key != record.item.key ensures Current(after, key) == Current(db, key) {}
    assert Current(after, record.item.key) == Current(origin, record.item.key);
    hide RollbackAt;
    forall j | |origin.audit| <= j < |after.audit| && after.audit[j].outcome == Applied ensures Reversible(origin, after, after.audit[j]) {
      assert j != i && Reversible(origin, db, db.audit[j]) && db.audit[j].item.key != record.item.key;
    }
    forall key ensures Current(after, key) == Current(origin, key) || RecordedApplied(origin, after, key) {
      if key != record.item.key && RecordedApplied(origin, db, key) {
        var j :| |origin.audit| <= j < |db.audit| && db.audit[j].outcome == Applied && db.audit[j].item.key == key;
        assert after.audit[j] == db.audit[j];
      }
    }
  }

  /** The positions rollback selects: each applied record of the run once, in any order. */
  ghost predicate SelectsApplied(db: Db, run: nat, order: seq<nat>) {
    && (forall k :: 0 <= k < |order| ==> order[k] < |db.audit| && db.audit[order[k]].run == run && db.audit[order[k]].outcome == Applied)
    && (forall k, l :: 0 <= k < l < |order| ==> order[k] != order[l])
  }

  ghost predicate SelectsAll(db: Db, run: nat, order: seq<nat>) {
    forall i :: 0 <= i < |db.audit| && db.audit[i].run == run && db.audit[i].outcome == Applied ==> i in order
  }

  lemma {:induction false} RollbackKeepsUndoable(origin: Db, db: Db, run: nat, order: seq<nat>)
    requires Undoable(origin, db, run) && SelectsApplied(db, run, order)
    requires forall i :: 0 <= i < |origin.audit| ==> i < |db.audit| && db.audit[i].run != run
    ensures Undoable(origin, RollbackAll(db, order), run)
    ensures forall i :: 0 <= i < |db.audit| ==>
      RollbackAll(db, order).audit[i] == if i in order then db.audit[i].(outcome := RolledBack) else db.audit[i]
  {
    hide Undoable, RollbackAt;
    if |order| > 0 {
      var n := |order| - 1;
      SelectsPrefix(db, run, order);
      hide SelectsApplied;
      RollbackKeepsUndoable(origin, db, run, order[..n]);
      assert order == order[..n] + [order[n]];
      RollbackUndoesOne(origin, RollbackAll(db, order[..n]), run, order[n]);
    }
  }

  lemma SelectsPrefix(db: Db, run: nat, order: seq<nat>)
    requires SelectsApplied(db, run, order) && |order| > 0
    ensures SelectsApplied(db, run, order[..|order| - 1]) && order[|order| - 1] !in order[..|order| - 1]
    ensures order[|order| - 1] < |db.audit| && db.audit[order[|order| - 1]].run == run && db.audit[order[|order| - 1]].outcome == Applied
  {
    var init := order[..|order| - 1];
    assert forall k :: 0 <= k < |init| ==> init[k] == order[k];
  }

  /** With nothing left to undo, the facts are the original ones. */
  lemma NothingLeftToUndo(origin: Db, db: Db, run: nat)
    requires Undoable(origin, db, run)
    requires forall i :: |origin.audit| <= i < |db.audit| ==> db.audit[i].outcome != Applied
    ensures db.facts == origin.facts
  {
    forall key ensures (key in db.facts <==> key in origin.facts) && (key in db.facts ==> db.facts[key] == origin.facts[key]) {
      assert !RecordedApplied(origin, db, key);
      assert Current(db, key) == Current(origin, key);
    }
  }

  /** Applying any part of a plan (a whole plan, or up to any crash) and rolling back its applied
      records, in any order, gives back every fact's volume and lineage. */
  lemma ApplyThenRollbackRestores(origin: Db, run: nat, actions: seq<Action>, order: seq<nat>)
    requires (forall a :: a in actions ==> ValidAction(a)) && DistinctKeys(actions) && AuditSound(origin)
    requires forall i :: 0 <= i < |origin.audit| ==> origin.audit[i].run != run
    requires var applied := PerformAll(origin, run, actions);
      SelectsApplied(applied, run, order) && SelectsAll(applied, run, order)
    ensures RollbackAll(PerformAll(origin, run, actions), order).facts == origin.facts
  {
    ActionsAreUndoable(origin, run, actions);
    AuditOnlyGrows(origin, run, actions);
    var applied := PerformAll(origin, run, actions);
    hide PerformAll, AuditSound, ValidAction, DistinctKeys, RollbackAll;
    RollbackKeepsUndoable(origin, applied, run, order);
    forall i | |origin.audit| <= i < |applied.audit| ensures RollbackAll(applied, order).audit[i].outcome != Applied {}
    NothingLeftToUndo(origin, RollbackAll(applied, order), run);
  }

  lemma {:induction false} AuditOnlyGrows(db: Db, run: nat, actions: seq<Action>)
    requires forall a :: a in actions ==> ValidAction(a)
    ensures db.audit <= PerformAll(db, run, actions).audit
  {
    if |actions| > 0 {
      AuditOnlyGrows(db, run, actions[..|actions| - 1]);
      hide Evaluate, Previous, Matching, IsMatched, IsAlreadyApplied, GroupComplete, IncompleteScope;
    }
  }
}
