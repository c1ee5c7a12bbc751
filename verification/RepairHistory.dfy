/** Several repairs applied and rolled back in any order, with other writers in between: what holds
    along every history, and what a whole rollback or a resumed run can have changed. */
module RepairHistory {
  import opened Wrappers
  import opened QuantityRepair
  import opened RepairRollback

  // ---------------------------------------------------------------------------
  // A whole rollback
  // ---------------------------------------------------------------------------

  ghost predicate InAudit(db: Db, order: seq<nat>) {
    forall k :: 0 <= k < |order| ==> order[k] < |db.audit|
  }

  /** Rolling back rewrites outcomes only, and only those of the selected records. */
  lemma {:induction false} RollbackKeepsRecords(db: Db, order: seq<nat>, i: nat)
    requires InAudit(db, order) && i < |db.audit|
    ensures RollbackAll(db, order).audit[i] == db.audit[i].(outcome := RollbackAll(db, order).audit[i].outcome)
    ensures i !in order ==> RollbackAll(db, order).audit[i] == db.audit[i]
  {
    if |order| > 0 {
      var n := |order| - 1;
      RollbackKeepsRecords(db, order[..n], i);
      assert order == order[..n] + [order[n]];
    }
  }

  /** The fact was exactly what one of the records left behind. */
  ghost predicate WasRecorded(db: Db, order: seq<nat>, key: Key)
    requires InAudit(db, order)
  {
    exists k :: 0 <= k < |order| && db.audit[order[k]].item.key == key && StillAsApplied(db, db.audit[order[k]])
  }

  /** The fact now has the volume and lineage one of the records holds for it. */
  ghost predicate IsRestored(db: Db, order: seq<nat>, after: Db, key: Key)
    requires InAudit(db, order)
  {
    exists k :: 0 <= k < |order| && db.audit[order[k]].item.key == key && key in after.facts
      && after.facts[key].volume == db.audit[order[k]].before.volume && after.facts[key].ingestion == db.audit[order[k]].item.original
  }

  /** A whole rollback changes a fact only if it stood exactly as one of the selected records left
      it, and then to a recorded volume and lineage. */
  lemma {:induction false} RollbackAllComparesAndSets(db: Db, order: seq<nat>, key: Key)
    requires InAudit(db, order)
    ensures Current(RollbackAll(db, order), key) != Current(db, key) ==>
      WasRecorded(db, order, key) && IsRestored(db, order, RollbackAll(db, order), key)
  {
    if |order| > 0 {
      var n := |order| - 1;
      var before := RollbackAll(db, order[..n]);
      RollbackAllComparesAndSets(db, order[..n], key);
      RollbackKeepsRecords(db, order[..n], order[n]);
      RollbackComparesAndSets(before, order[n], key);
      Widen(db, order, before, key);
      hide RollbackAt, StillAsApplied, RollbackAll;
      LastUndone(db, order, key);
    }
  }

  lemma Widen(db: Db, order: seq<nat>, after: Db, key: Key)
    requires |order| > 0 && InAudit(db, order)
    ensures WasRecorded(db, order[..|order| - 1], key) ==> WasRecorded(db, order, key)
    ensures IsRestored(db, order[..|order| - 1], after, key) ==> IsRestored(db, order, after, key)
  {
    var init := order[..|order| - 1];
    assert forall k :: 0 <= k < |init| ==> init[k] == order[k];
  }

  lemma LastUndone(db: Db, order: seq<nat>, key: Key)
    requires |order| > 0 && InAudit(db, order)
    ensures
      var n := |order| - 1;
      var before, after := RollbackAll(db, order[..n]), RollbackAll(db, order);
      && (Current(after, key) == Current(before, key) && IsRestored(db, order, before, key) ==> IsRestored(db, order, after, key))
      && (Current(after, key) != Current(before, key) ==>
            IsRestored(db, order, after, key) && (Current(before, key) == Current(db, key) ==> WasRecorded(db, order, key)))
  {
    var n := |order| - 1;
    var before, after := RollbackAll(db, order[..n]), RollbackAll(db, order);
    RollbackKeepsRecords(db, order[..n], order[n]);
    RollbackComparesAndSets(before, order[n], key);
    assert after == RollbackAt(before, order[n]);
    if Current(after, key) != Current(before, key) {
      assert before.audit[order[n]].item.key == key && StillAsApplied(before, before.audit[order[n]]);
    }
  }

  lemma {:induction false} RollbackAllKeepsAuditSound(db: Db, order: seq<nat>)
    requires AuditSound(db) && InAudit(db, order)
    ensures AuditSound(RollbackAll(db, order))
  {
    if |order| > 0 {
      RollbackAllKeepsAuditSound(db, order[..|order| - 1]);
      RollbackKeepsAuditSound(RollbackAll(db, order[..|order| - 1]), order[|order| - 1]);
      hide RollbackAt, AuditSound;
    }
  }

  ghost predicate DerivedElsewhere(db: Db, run: nat, key: Key) {
    key in db.facts && db.facts[key].ingestion.Derived? && db.facts[key].ingestion.run != run
  }

  /** Rolling back every applied record of one plan leaves each fact another plan's repair produced. */
  lemma {:induction false} RollbackAllSparesOtherPlans(db: Db, run: nat, order: seq<nat>, key: Key)
    requires AuditSound(db) && InAudit(db, order) && SelectsApplied(db, run, order) && DerivedElsewhere(db, run, key)
    ensures Current(RollbackAll(db, order), key) == Current(db, key)
  {
    if |order| > 0 {
      var n := |order| - 1;
      SelectsPrefix(db, run, order);
      hide RollbackAt, AuditSound, SelectsApplied;
      RollbackAllSparesOtherPlans(db, run, order[..n], key);
      RollbackAllKeepsAuditSound(db, order[..n]);
      RollbackKeepsRecords(db, order[..n], order[n]);
      OtherPlansUntouched(RollbackAll(db, order[..n]), order[n], key);
    }
  }

  // ---------------------------------------------------------------------------
  // Histories
  // ---------------------------------------------------------------------------

  /** What other writers may leave of the tables the repair does not own. */
  datatype World = World(facts: map<Key, Fact>, lineage: map<Ingestion, seq<RawObject>>, certificates: map<Ingestion, Certificate>)

  datatype Event = Act(run: nat, action: Action) | Undo(record: nat) | Elsewhere(world: World)

  function Overwrite(db: Db, w: World): Db { db.(facts := w.facts, lineage := w.lineage, certificates := w.certificates) }

  /** Rollback selects records that are still applied, of whatever run. */
  predicate Possible(db: Db, e: Event) {
    match e
    case Act(_, action) => ValidAction(action)
    case Undo(i) => i < |db.audit| && db.audit[i].outcome == Applied
    case Elsewhere(_) => true
  }

  function Happen(db: Db, e: Event): Db
    requires Possible(db, e)
  {
    match e
    case Act(run, action) => Perform(db, run, action)
    case Undo(i) => RollbackAt(db, i)
    case Elsewhere(w) => Overwrite(db, w)
  }

  /** The database after a history, if each of its events was possible. */
  ghost function Play(db: Db, history: seq<Event>): Option<Db> {
    if |history| == 0 then Some(db)
    else
      var before := Play(db, history[..|history| - 1]);
      if before.Some? && Possible(before.value, history[|history| - 1]) then Some(Happen(before.value, history[|history| - 1])) else None
  }

  lemma ActKeepsAuditSound(db: Db, run: nat, action: Action)
    requires AuditSound(db) && ValidAction(action)
    ensures AuditSound(Perform(db, run, action))
  {
    if action.RepairOne? { ApplyKeepsAuditSound(db, run, action.item); }
    hide ApplyItem, GroupComplete, IncompleteScope;
  }

  /** Along every history the audit trail is sound: each applied record derives from its own run. */
  lemma {:induction false} EveryHistoryIsSound(start: Db, history: seq<Event>)
    requires start.audit == [] && Play(start, history).Some?
    ensures AuditSound(Play(start, history).value)
  {
    if |history| > 0 {
      var n := |history| - 1;
      EveryHistoryIsSound(start, history[..n]);
      var db := Play(start, history[..n]).value;
      hide AuditSound, Perform, RollbackAt;
      match history[n]
      case Act(run, action) => ActKeepsAuditSound(db, run, action);
      case Undo(i) => RollbackKeepsAuditSound(db, i);
      case Elsewhere(w) => OverwriteKeepsAuditSound(db, w);
    }
  }

  lemma OverwriteKeepsAuditSound(db: Db, w: World)
    requires AuditSound(db)
    ensures AuditSound(Overwrite(db, w))
  {
  }

  lemma {:induction false} PrefixPlays(start: Db, history: seq<Event>, p: nat)
    requires Play(start, history).Some? && p <= |history|
    ensures Play(start, history[..p]).Some?
    ensures p < |history| ==>
      && Possible(Play(start, history[..p]).value, history[p])
      && Play(start, history[..p + 1]) == Some(Happen(Play(start, history[..p]).value, history[p]))
  {
    hide Possible, Happen;
    if p < |history| {
      var n := |history| - 1;
      if p < n {
        PrefixPlays(start, history[..n], p);
        assert history[..n][..p] == history[..p] && history[..n][..p + 1] == history[..p + 1];
      } else {
        assert history[..p + 1] == history && history[..p] == history[..n];
      }
    } else {
      assert history[..p] == history;
    }
  }

  /** In every history, with any runs, interleavings and other writers: a repair step changes a fact
      only from its previewed to its repaired state, a rollback step only from the recorded after
      state and never a fact another run derived, and certifying changes no fact. */
  lemma EveryChangeIsAccountedFor(start: Db, history: seq<Event>, p: nat, key: Key)
    requires start.audit == [] && Play(start, history).Some? && p < |history|
    ensures Play(start, history[..p]).Some? && Play(start, history[..p + 1]).Some?
    ensures
      var before, after := Play(start, history[..p]).value, Play(start, history[..p + 1]).value;
      Current(after, key) != Current(before, key) ==>
        match history[p]
        case Act(run, action) =>
          && action.RepairOne? && action.item.key == key
          && Current(before, key) == Some(action.item.before) && Current(after, key) == Some(Repaired(run, action.item))
        case Undo(i) =>
          && i < |before.audit| && before.audit[i].item.key == key && StillAsApplied(before, before.audit[i])
          && before.facts[key].ingestion == Derived(before.audit[i].run, before.audit[i].item)
          && Current(after, key)
             == Some(before.facts[key].(volume := before.audit[i].before.volume, ingestion := before.audit[i].item.original))
        case Elsewhere(_) => true
  {
    PrefixPlays(start, history, p);
    EveryHistoryIsSound(start, history[..p]);
    var before := Play(start, history[..p]).value;
    hide Play;
    match history[p]
    case Act(run, action) =>
      hide Evaluate, Previous, Matching, IsAlreadyApplied, GroupComplete, IncompleteScope, AuditSound;
    case Undo(i) =>
      assert RecordSound(before.audit[i]);
      RollbackComparesAndSets(before, i, key);
      hide AuditSound;
    case Elsewhere(_) =>
  }

  /** Whatever happened before, applying any part of a new plan and rolling back what it applied
      restores every fact. */
  lemma PlansRoundTripInEveryHistory(start: Db, history: seq<Event>, run: nat, actions: seq<Action>, order: seq<nat>)
    requires start.audit == [] && Play(start, history).Some? && (forall a :: a in actions ==> ValidAction(a)) && DistinctKeys(actions)
    requires forall i :: 0 <= i < |Play(start, history).value.audit| ==> Play(start, history).value.audit[i].run != run
    requires var applied := PerformAll(Play(start, history).value, run, actions);
      SelectsApplied(applied, run, order) && SelectsAll(applied, run, order)
    ensures RollbackAll(PerformAll(Play(start, history).value, run, actions), order).facts == Play(start, history).value.facts
  {
    EveryHistoryIsSound(start, history);
    hide Play, PerformAll, RollbackAll, AuditSound;
    ApplyThenRollbackRestores(Play(start, history).value, run, actions, order);
  }

  // ---------------------------------------------------------------------------
  // Resumption amid other writers
  // ---------------------------------------------------------------------------

  /** The items a run has recorded, in order. */
  function RunItems(audit: seq<AuditItem>, run: nat): seq<ItemKey> {
    if |audit| == 0 then []
    else RunItems(audit[..|audit| - 1], run) + if audit[|audit| - 1].run == run then [audit[|audit| - 1].item] else []
  }

  /** The items a plan repairs, in order. */
  function RepairItems(actions: seq<Action>): seq<ItemKey> {
    if |actions| == 0 then []
    else RepairItems(actions[..|actions| - 1]) + if actions[|actions| - 1].RepairOne? then [ItemKeyOf(actions[|actions| - 1].item)] else []
  }

  lemma {:induction false} RunItemsConcat(a: seq<AuditItem>, b: seq<AuditItem>, run: nat)
    ensures RunItems(a + b, run) == RunItems(a, run) + RunItems(b, run)
  {
    if |b| == 0 {
      assert a + b == a;
    } else {
      assert (a + b)[..|a + b| - 1] == a + b[..|b| - 1];
      RunItemsConcat(a, b[..|b| - 1], run);
    }
  }

  lemma {:induction false} RepairItemsConcat(a: seq<Action>, b: seq<Action>)
    ensures RepairItems(a + b) == RepairItems(a) + RepairItems(b)
  {
    if |b| == 0 {
      assert a + b == a;
    } else {
      assert (a + b)[..|a + b| - 1] == a + b[..|b| - 1];
      RepairItemsConcat(a, b[..|b| - 1]);
    }
  }

  lemma ActionAudits(db: Db, run: nat, action: Action)
    requires ValidAction(action)
    ensures RunItems(Perform(db, run, action).audit, run) == RunItems(db.audit, run) + RepairItems([action])
    ensures Perform(db, run, action).cursor == db.cursor
  {
    assert [action][..0] == [];
    match action
    case RepairOne(item) =>
      var record := ApplyAudits(db, run, item);
      RunItemsConcat(db.audit, [record], run);
      assert [record][..0] == [];
      hide ApplyItem;
    case CertifyAll(group) =>
      CertifyAudits(db, run, group);
      hide CertifyGroup;
  }

  lemma ApplyAudits(db: Db, run: nat, item: Item) returns (record: AuditItem)
    ensures ApplyItem(db, run, item).audit == db.audit + [record] && record.run == run && record.item == ItemKeyOf(item)
    ensures ApplyItem(db, run, item).cursor == db.cursor
  {
    hide IsAlreadyApplied, IsMatched, Previous, Matching;
    record := ApplyItem(db, run, item).audit[|db.audit|];
  }

  lemma CertifyAudits(db: Db, run: nat, group: seq<Item>)
    requires |group| > 0
    ensures CertifyGroup(db, run, group).audit == db.audit && CertifyGroup(db, run, group).cursor == db.cursor
  {
    hide GroupComplete, IncompleteScope;
  }

  lemma NoItems()
    ensures RepairItems([]) == []
  {
  }

  lemma ItemsSnoc(actions: seq<Action>)
    requires |actions| > 0
    ensures RepairItems(actions) == RepairItems(actions[..|actions| - 1]) + RepairItems([actions[|actions| - 1]])
  {
    assert [actions[|actions| - 1]][..0] == [];
  }

  /** Performing actions records each of their items once, in order. */
  lemma {:induction false} ActionsAudit(db: Db, run: nat, actions: seq<Action>)
    requires forall a :: a in actions ==> ValidAction(a)
    ensures RunItems(PerformAll(db, run, actions).audit, run) == RunItems(db.audit, run) + RepairItems(actions)
    ensures PerformAll(db, run, actions).cursor == db.cursor
  {
    hide Perform, RunItems, RepairItems, ValidAction;
    if |actions| == 0 {
      NoItems();
    } else {
      var n := |actions| - 1;
      ActionsAudit(db, run, actions[..n]);
      ActionAudits(PerformAll(db, run, actions[..n]), run, actions[n]);
      ItemsSnoc(actions);
      Associate(RunItems(db.audit, run), RepairItems(actions[..n]), RepairItems([actions[n]]));
    }
  }

  /** The run stands after its first `c` actions: the cursor says so, and its records since `earlier`
      are exactly those actions' items. */
  ghost predicate StandsAt(db: Db, run: nat, actions: seq<Action>, earlier: seq<ItemKey>, c: nat) {
    c <= |actions| && CursorOf(db, run) == c && RunItems(db.audit, run) == earlier + RepairItems(actions[..c])
  }

  /** One batch from any database moves a run forward by exactly the actions it performs. */
  lemma BatchMovesForward(db: Db, run: nat, actions: seq<Action>, earlier: seq<ItemKey>, c: nat, batchSize: nat) returns (d: nat)
    requires (forall a :: a in actions ==> ValidAction(a)) && StandsAt(db, run, actions, earlier, c)
    ensures c <= d && (c < |actions| ==> c < d) && StandsAt(Batch(db, run, actions, batchSize), run, actions, earlier, d)
  {
    hide PerformAll, BatchLength, RunItems, RepairItems, ValidAction;
    if c == |actions| {
      d := c;
    } else {
      hide Batch;
      var n := BatchLength(actions[c..], batchSize, 0, 0);
      d := c + n;
      BatchFrom(db, run, actions, batchSize, c, n);
      ActionsAudit(db, run, actions[c..d]);
      ItemsFurther(actions, c, d);
      Associate(earlier, RepairItems(actions[..c]), RepairItems(actions[c..d]));
    }
  }

  lemma ItemsFurther(actions: seq<Action>, c: nat, d: nat)
    requires c <= d <= |actions|
    ensures RepairItems(actions[..d]) == RepairItems(actions[..c]) + RepairItems(actions[c..d])
  {
    hide RepairItems;
    RepairItemsConcat(actions[..c], actions[c..d]);
    assert actions[..d] == actions[..c] + actions[c..d];
  }

  lemma BatchFrom(db: Db, run: nat, actions: seq<Action>, batchSize: nat, c: nat, n: nat)
    requires (forall a :: a in actions ==> ValidAction(a)) && CursorOf(db, run) == c < |actions|
    requires n == BatchLength(actions[c..], batchSize, 0, 0)
    ensures c + n <= |actions| && n > 0
    ensures Batch(db, run, actions, batchSize)
         == PerformAll(db, run, actions[c..c + n]).(cursor := PerformAll(db, run, actions[c..c + n]).cursor[run := c + n])
  {
    hide PerformAll, ValidAction;
    Cut(actions, c, n);
  }

  /** What happens between two batches: other tables change at will, other runs add records. */
  datatype Meanwhile = Meanwhile(world: World, others: seq<AuditItem>)

  ghost predicate OfOthers(m: Meanwhile, run: nat) {
    forall i :: 0 <= i < |m.others| ==> m.others[i].run != run
  }

  function Interfere(db: Db, m: Meanwhile): Db { Overwrite(db, m.world).(audit := db.audit + m.others) }

  /** Nothing is asked of other writers: any facts, lineage, certificates and records of theirs may be found
      at any point of a history, and between any two batches. */
  lemma WritesAreArbitrary(db: Db, to: Db)
    requires to.cursor == db.cursor
    ensures to.audit == db.audit ==> exists w :: Possible(db, Elsewhere(w)) && Happen(db, Elsewhere(w)) == to
    ensures db.audit <= to.audit ==> exists m: Meanwhile :: m.others == to.audit[|db.audit|..] && Interfere(db, m) == to
  {
    var w := World(to.facts, to.lineage, to.certificates);
    if to.audit == db.audit { assert Happen(db, Elsewhere(w)) == to; }
    if db.audit <= to.audit {
      var m := Meanwhile(w, to.audit[|db.audit|..]);
      assert db.audit + m.others == to.audit;
      assert Interfere(db, m) == to;
    }
  }

  lemma {:induction false} NoneOfRun(others: seq<AuditItem>, run: nat)
    requires forall i :: 0 <= i < |others| ==> others[i].run != run
    ensures RunItems(others, run) == []
  {
    if |others| > 0 { NoneOfRun(others[..|others| - 1], run); }
  }

  lemma InterferenceKeepsPlace(db: Db, run: nat, actions: seq<Action>, earlier: seq<ItemKey>, c: nat, m: Meanwhile)
    requires StandsAt(db, run, actions, earlier, c) && OfOthers(m, run)
    ensures StandsAt(Interfere(db, m), run, actions, earlier, c)
  {
    RunItemsConcat(db.audit, m.others, run);
    NoneOfRun(m.others, run);
    hide RunItems, RepairItems;
  }

  ghost function BatchesAmid(db: Db, run: nat, actions: seq<Action>, sizes: seq<nat>, between: seq<Meanwhile>): Db
    requires (forall a :: a in actions ==> ValidAction(a)) && |between| == |sizes|
  {
    if |sizes| == 0 then db
    else
      var n := |sizes| - 1;
      Batch(Interfere(BatchesAmid(db, run, actions, sizes[..n], between[..n]), between[n]), run, actions, sizes[n])
  }

  /** Resumption is exactly once and in order even while others write: whatever crashes, batch sizes
      and interference there are, the run's records are the items of a prefix of its plan, once each
      and in order, its cursor stands just past them, and enough batches finish the plan. */
  lemma {:induction false} ResumptionAmidWrites(db: Db, run: nat, actions: seq<Action>, sizes: seq<nat>, between: seq<Meanwhile>)
    returns (c: nat)
    requires (forall a :: a in actions ==> ValidAction(a)) && CursorOf(db, run) == 0
    requires |between| == |sizes| && forall i :: 0 <= i < |between| ==> OfOthers(between[i], run)
    ensures c <= |actions| && (|sizes| >= |actions| ==> c == |actions|) && (|sizes| < |actions| ==> |sizes| <= c)
    ensures StandsAt(BatchesAmid(db, run, actions, sizes, between), run, actions, RunItems(db.audit, run), c)
  {
    var earlier := RunItems(db.audit, run);
    hide Batch, Interfere, StandsAt, RunItems, ValidAction;
    if |sizes| == 0 {
      c := 0;
      StandsAtStart(db, run, actions);
    } else {
      var n := |sizes| - 1;
      var before := ResumptionAmidWrites(db, run, actions, sizes[..n], between[..n]);
      var mid := BatchesAmid(db, run, actions, sizes[..n], between[..n]);
      InterferenceKeepsPlace(mid, run, actions, earlier, before, between[n]);
      c := BatchMovesForward(Interfere(mid, between[n]), run, actions, earlier, before, sizes[n]);
      StandsWithin(BatchesAmid(db, run, actions, sizes, between), run, actions, earlier, c);
    }
  }

  lemma StandsAtStart(db: Db, run: nat, actions: seq<Action>)
    requires CursorOf(db, run) == 0
    ensures StandsAt(db, run, actions, RunItems(db.audit, run), 0)
  {
    assert actions[..0] == [];
  }

  lemma StandsWithin(db: Db, run: nat, actions: seq<Action>, earlier: seq<ItemKey>, c: nat)
    requires StandsAt(db, run, actions, earlier, c)
    ensures c <= |actions|
  {
  }
}
