/** What one transaction of the repair takes, writes and leaves alone. */
module RepairTransactions {
  import opened Wrappers
  import opened QuantityRepair
  import opened RepairCertification

  // ---------------------------------------------------------------------------
  // What a batch takes
  // ---------------------------------------------------------------------------

  lemma CostSnoc(actions: seq<Action>, taken: nat)
    requires taken < |actions|
    ensures TotalCost(actions[..taken + 1]) == TotalCost(actions[..taken]) + Cost(actions[taken])
  {
    hide Cost;
    assert actions[..taken + 1][..taken] == actions[..taken];
  }

  /** A batch stops only at the end or when the next action no longer fits. */
  lemma {:induction false} BatchStopsWhenFull(actions: seq<Action>, batchSize: nat, taken: nat, cost: nat)
    requires taken <= |actions| && cost == TotalCost(actions[..taken]) && (taken <= 1 || cost <= batchSize)
    ensures
      var n := BatchLength(actions, batchSize, taken, cost);
      n < |actions| ==> n > 0 && TotalCost(actions[..n + 1]) > batchSize
    decreases |actions| - taken
  {
    hide Cost, TotalCost;
    if taken < |actions| {
      CostSnoc(actions, taken);
      if !(taken > 0 && cost + Cost(actions[taken]) > batchSize) {
        BatchStopsWhenFull(actions, batchSize, taken + 1, cost + Cost(actions[taken]));
      }
    }
  }

  /** The plan items the actions are about. */
  function ItemCount(actions: seq<Action>): nat {
    if |actions| == 0 then 0
    else ItemCount(actions[..|actions| - 1]) + if actions[|actions| - 1].RepairOne? then 1 else |actions[|actions| - 1].group|
  }

  lemma {:induction false} OthersCost(actions: seq<Action>, i: nat)
    requires i < |actions| && forall a :: a in actions ==> ValidAction(a)
    ensures TotalCost(actions) >= Cost(actions[i]) + |actions| - 1
  {
    var n := |actions| - 1;
    if i < n {
      OthersCost(actions[..n], i);
      assert actions[n] in actions;
    } else if n > 0 {
      OthersCost(actions[..n], 0);
      assert actions[0] in actions;
    }
  }

  lemma {:induction false} SmallActionsCostTheirItems(actions: seq<Action>)
    requires forall i :: 0 <= i < |actions| ==> Cost(actions[i]) < 500
    ensures TotalCost(actions) == ItemCount(actions)
  {
    if |actions| > 0 { SmallActionsCostTheirItems(actions[..|actions| - 1]); }
  }

  /** With an allowed batch size, a transaction of several actions is about no more items than that: a
      group too large to count fully always has a transaction of its own. */
  lemma BatchIsBounded(actions: seq<Action>, batchSize: nat)
    requires (forall a :: a in actions ==> ValidAction(a)) && 1 <= batchSize <= 500
    ensures
      var n := BatchLength(actions, batchSize, 0, 0);
      n >= 2 ==> ItemCount(actions[..n]) <= batchSize
  {
    assert TotalCost(actions[..0]) == 0;
    hide BatchLength, Cost, TotalCost, ItemCount;
    var n := BatchLength(actions, batchSize, 0, 0);
    if n >= 2 {
      var batch := actions[..n];
      assert forall a :: a in batch ==> a in actions;
      forall i | 0 <= i < |batch| ensures Cost(batch[i]) < 500 { OthersCost(batch, i); }
      SmallActionsCostTheirItems(batch);
    }
  }

  lemma FirstBatchStartsAtFirst(db: Db, run: nat, actions: seq<Action>, batchSize: nat)
    requires (forall a :: a in actions ==> ValidAction(a)) && run !in db.cursor && |actions| > 0
    ensures Batch(db, run, actions, batchSize) == Batch(Progress(db, run, actions, 0), run, actions, batchSize)
  {
    assert Progress(db, run, actions, 0) == db.(cursor := db.cursor[run := 0]);
    hide PerformAll, BatchLength, ValidAction, Progress;
    var n := BatchLength(actions[0..], batchSize, 0, 0);
    BatchAtCursor(db, run, actions, batchSize, 0, n);
    CursorIsSeparate(db, run, actions[0..][..n], db.cursor);
  }

  lemma {:induction false} FreshRunStartsAtFirst(db: Db, run: nat, actions: seq<Action>, sizes: seq<nat>)
    requires (forall a :: a in actions ==> ValidAction(a)) && run !in db.cursor && |actions| > 0 && |sizes| > 0
    ensures Batches(db, run, actions, sizes) == Batches(Progress(db, run, actions, 0), run, actions, sizes)
  {
    hide Batch, Progress, ValidAction;
    if |sizes| == 1 {
      FirstBatchStartsAtFirst(db, run, actions, sizes[0]);
    } else {
      FreshRunStartsAtFirst(db, run, actions, sizes[..|sizes| - 1]);
    }
  }

  /** A new run, however it is cut into batches, performs a prefix of the actions from the first on. */
  lemma FreshRunIsExactlyOnce(db: Db, run: nat, actions: seq<Action>, sizes: seq<nat>) returns (c: nat)
    requires (forall a :: a in actions ==> ValidAction(a)) && run !in db.cursor && |actions| > 0 && |sizes| > 0
    ensures 0 < c <= |actions| && (|sizes| >= |actions| ==> c == |actions|)
    ensures Batches(db, run, actions, sizes) == PerformAll(db, run, actions[..c]).(cursor := db.cursor[run := c])
  {
    hide PerformAll, ValidAction;
    FreshRunStartsAtFirst(db, run, actions, sizes);
    c := ResumptionIsExactlyOnce(db, run, actions, sizes);
    hide Batches;
  }

  // ---------------------------------------------------------------------------
  // What applying one item writes
  // ---------------------------------------------------------------------------

  /** The fact is still what the preview saw, and so is its evidence. */
  ghost predicate StillAsPreviewed(db: Db, item: Item) {
    && item.key in db.facts && db.facts[item.key] == item.before && item.before.ingestion == item.original
    && Evaluate(db.lineage, item.key, item.before) == item.found
  }

  /** Some run already repaired the item, and the fact is what the earliest such record left. */
  ghost predicate AlreadyRepaired(db: Db, item: Item, i: int) {
    && 0 <= i < |db.audit| && db.audit[i].item == ItemKeyOf(item) && db.audit[i].outcome in {Applied, AlreadyApplied}
    && (forall j :: 0 <= j < i && db.audit[j].item == ItemKeyOf(item) ==> db.audit[j].outcome !in {Applied, AlreadyApplied})
    && item.key in db.facts && db.audit[i].after == Some(db.facts[item.key]) && db.audit[i].derived == Some(db.facts[item.key].ingestion)
  }

  lemma {:induction false} PreviousIsEarliest(audit: seq<AuditItem>, item: ItemKey)
    ensures Previous(audit, item).Some? ==> exists i :: IsEarliest(audit, item, i) && audit[i] == Previous(audit, item).value
    ensures Previous(audit, item).None? ==> forall i :: !IsEarliest(audit, item, i)
  {
    if |audit| > 0 {
      var n := |audit| - 1;
      var init := audit[..n];
      PreviousIsEarliest(init, item);
      if Previous(init, item).Some? {
        var i :| IsEarliest(init, item, i) && init[i] == Previous(init, item).value;
        assert IsEarliest(audit, item, i);
      } else {
        NoneEarlier(init, item);
        if IsRecordOf(audit[n], item) { assert IsEarliest(audit, item, n); }
        forall i ensures Previous(audit, item).None? ==> !IsEarliest(audit, item, i) {
          if 0 <= i < n { assert audit[i] == init[i]; }
        }
      }
    }
  }

  predicate IsRecordOf(r: AuditItem, item: ItemKey) { r.item == item && r.outcome in {Applied, AlreadyApplied} }

  ghost predicate IsEarliest(audit: seq<AuditItem>, item: ItemKey, i: int) {
    0 <= i < |audit| && IsRecordOf(audit[i], item) && forall j :: 0 <= j < i ==> !IsRecordOf(audit[j], item)
  }

  lemma {:induction false} NoneEarlier(audit: seq<AuditItem>, item: ItemKey)
    requires forall i :: !IsEarliest(audit, item, i)
    ensures forall i :: 0 <= i < |audit| ==> !IsRecordOf(audit[i], item)
  {
    if |audit| > 0 {
      var init := audit[..|audit| - 1];
      forall i ensures !IsEarliest(init, item, i) { if IsEarliest(init, item, i) { assert IsEarliest(audit, item, i); } }
      NoneEarlier(init, item);
      var n := |audit| - 1;
      forall i | 0 <= i < n ensures !IsRecordOf(audit[i], item) { assert audit[i] == init[i]; }
      if IsRecordOf(audit[n], item) { assert IsEarliest(audit, item, n); }
    }
  }

  lemma AlreadyMeansRepaired(db: Db, item: Item)
    ensures IsAlreadyApplied(db, item) <==> exists i :: AlreadyRepaired(db, item, i)
  {
    hide Previous;
    PreviousIsEarliest(db.audit, ItemKeyOf(item));
    var previous := Previous(db.audit, ItemKeyOf(item));
    if previous.Some? {
      var i :| IsEarliest(db.audit, ItemKeyOf(item), i) && db.audit[i] == previous.value;
      forall j | AlreadyRepaired(db, item, j) ensures j == i {
        assert !(j < i) && !(i < j);
      }
      if IsAlreadyApplied(db, item) { assert AlreadyRepaired(db, item, i); }
    } else {
      NoneEarlier(db.audit, ItemKeyOf(item));
    }
  }

  /** Everything an item's transaction writes: a record in any case, saying what was found; and, only if
      the fact is still as previewed, the repaired fact, its derived lineage and their certificate. */
  lemma ItemTransaction(db: Db, run: nat, item: Item)
    ensures
      var after, own := ApplyItem(db, run, item), Derived(run, ItemKeyOf(item));
      && |after.audit| == |db.audit| + 1 && after.audit[..|db.audit|] == db.audit && after.cursor == db.cursor
      && var r := after.audit[|db.audit|];
         && r.run == run && r.item == ItemKeyOf(item) && r.before == item.before
         && (r.outcome == AlreadyApplied <==> exists i :: AlreadyRepaired(db, item, i))
         && (r.outcome == Applied <==> StillAsPreviewed(db, item) && !exists i :: AlreadyRepaired(db, item, i))
         && (r.outcome == Conflict <==> !StillAsPreviewed(db, item) && !exists i :: AlreadyRepaired(db, item, i))
         && (StillAsPreviewed(db, item) ==>
               && after.facts == db.facts[item.key := item.before.(volume := item.found.target, ingestion := own)]
               && own in after.certificates && after.certificates == db.certificates[own := Certified(run)]
               && r.after == Some(after.facts[item.key]) && r.derived == Some(own))
         && (!StillAsPreviewed(db, item) ==> after.facts == db.facts && after.lineage == db.lineage && after.certificates == db.certificates)
         && (r.outcome == Conflict ==> r.after.None? && r.derived.None?)
         && (!StillAsPreviewed(db, item) && r.outcome == AlreadyApplied ==>
               r.after == Current(db, item.key) && r.after.Some? && r.derived == Some(r.after.value.ingestion))
  {
    hide Evaluate, Previous, Matching;
    AlreadyMeansRepaired(db, item);
    assert IsMatched(db, item) <==> StillAsPreviewed(db, item);
    hide AlreadyRepaired;
  }

  // ---------------------------------------------------------------------------
  // What certifying an ingestion decides
  // ---------------------------------------------------------------------------

  ghost function KeysOf(group: seq<Item>): set<Key> { set i | 0 <= i < |group| :: group[i].key }

  /** The plan's items are exactly the facts that now reference the ingestion, all of them correct at
      preview and unchanged since. */
  ghost predicate CoversIngestion(db: Db, group: seq<Item>)
    requires |group| > 0
  {
    && |group| == group[0].ingestionRows && |group| <= MAX_CERTIFICATION_ROWS
    && (forall key :: key in KeysOf(group) <==> key in db.facts && db.facts[key].ingestion == group[0].original)
    && forall i :: 0 <= i < |group| ==>
         group[i].found.status == AlreadyCorrect && group[i].key in db.facts && Rechecks(db, group[i], db.facts[group[i].key])
  }

  /** The plan speaks for only part of the ingestion: it was partial at preview, or correct throughout but
      the ingestion has more facts or fewer by now. */
  ghost predicate SpeaksForPart(db: Db, group: seq<Item>)
    requires |group| > 0
  {
    || PartialAtPreview(group)
    || ((forall i :: 0 <= i < |group| ==> group[i].found.status == AlreadyCorrect) && |Referencing(db, group[0].original)| != |group|)
  }

  lemma SameSizeSubset<T>(a: set<T>, b: set<T>)
    requires a <= b && |a| == |b|
    ensures a == b
  {
    assert |b - a| == |b| - |a|;
  }

  lemma CompleteIsCovering(db: Db, group: seq<Item>)
    requires |group| > 0 && DistinctItems(group)
    ensures GroupComplete(db, group) <==> CoversIngestion(db, group)
  {
    hide Rechecks;
    var referencing := Referencing(db, group[0].original);
    KeyCount(group);
    if GroupComplete(db, group) {
      forall key | key in referencing ensures key in KeysOf(group) { assert RowCertifiable(db, group, key); }
      SameSizeSubset(referencing, KeysOf(group));
      forall i | 0 <= i < |group| ensures group[i].key in db.facts && Rechecks(db, group[i], db.facts[group[i].key]) {
        assert group[i].key in referencing;
        assert RowCertifiable(db, group, group[i].key);
      }
    }
    if CoversIngestion(db, group) {
      assert referencing == KeysOf(group);
      forall key | key in referencing ensures RowCertifiable(db, group, key) { assert key in KeysOf(group); }
    }
  }

  /** Certification is exact: the ingestion is certified if and only if the plan covers it; otherwise the
      certificate is withheld, except that an earlier one stands against a plan that speaks for a part. */
  lemma CertificationIsExact(db: Db, run: nat, group: seq<Item>)
    requires |group| > 0 && DistinctItems(group)
    ensures
      var id := group[0].original;
      CertifyGroup(db, run, group)
        == if CoversIngestion(db, group) then db.(certificates := db.certificates[id := Certified(run)])
           else if SpeaksForPart(db, group) && id in db.certificates && db.certificates[id].Certified? then db
           else db.(certificates := db.certificates[id := Withheld(run)])
  {
    CompleteIsCovering(db, group);
    if CoversIngestion(db, group) { KeyCount(group); }
    hide Rechecks, Referencing, RowCertifiable;
  }

  // ---------------------------------------------------------------------------
  // What rolling back one record writes
  // ---------------------------------------------------------------------------

  /** The fact is exactly what the record says its repair left. */
  ghost predicate Restores(db: Db, r: AuditItem) {
    r.item.key in db.facts && r.after == Some(db.facts[r.item.key]) && r.derived == Some(db.facts[r.item.key].ingestion)
  }

  /** A rollback of one record writes its outcome in any case; and, only if the fact is still what the
      record left, the restored fact. */
  lemma RollbackTransaction(db: Db, i: nat)
    requires i < |db.audit|
    ensures
      var after, r := RollbackAt(db, i), db.audit[i];
      && after.audit == db.audit[i := r.(outcome := if Restores(db, r) then RolledBack else RollbackConflict)]
      && after.lineage == db.lineage && after.cursor == db.cursor
      && after.facts == if Restores(db, r) then db.facts[r.item.key := r.after.value.(volume := r.before.volume, ingestion := r.item.original)]
                        else db.facts
  {
  }

  /** A rollback that restores a fact withholds both lineages' certificates, and touches no other. */
  lemma RollbackWithholds(db: Db, i: nat, id: Ingestion)
    requires i < |db.audit|
    ensures
      var after, r := RollbackAt(db, i), db.audit[i];
      if Restores(db, r) && (id == r.item.original || Some(id) == r.derived) then
        id in after.certificates && after.certificates[id] == Withheld(r.run)
      else
        (id in after.certificates <==> id in db.certificates) && (id in db.certificates ==> after.certificates[id] == db.certificates[id])
  {
  }
}
