/** The evidence-bound repair of daily volumes: batched compare-and-set apply and rollback with a
    durable cursor, and certification of whole ingestions. Hashes and derived identifiers are
    free terms: equal only when everything they were computed from is equal. */
module QuantityRepair {
  import opened Wrappers

  type Key = (string, int)

  /** A fact's lineage: a collected ingestion, or the one a repair run derived for an item. */
  datatype Ingestion = Original(id: nat) | Derived(run: nat, item: ItemKey)

  datatype Fact = Fact(volume: Option<int>, ingestion: Ingestion, rest: nat)

  datatype ItemKey = ItemKey(key: Key, original: Ingestion, rawHash: nat, before: Fact)

  datatype Record = Record(volume: Option<int>, rest: nat)

  /** A verified Raw object behind an ingestion; legacy schemas stored lots unchanged. */
  datatype RawObject = RawObject(hash: nat, legacyLots: bool, rows: map<Key, Record>)

  datatype Status = AlreadyCorrect | Repair | Quarantined

  /** What `evaluate_fact` proves about one fact. */
  datatype Evaluation = Evaluation(status: Status, target: Option<int>, rawHash: nat)

  datatype Item = Item(key: Key, original: Ingestion, before: Fact, found: Evaluation, ingestionRows: nat)

  datatype Outcome = Applied | AlreadyApplied | Conflict | RolledBack | RollbackConflict

  datatype AuditItem = AuditItem(run: nat, item: ItemKey, before: Fact, after: Option<Fact>, derived: Option<Ingestion>, outcome: Outcome)

  datatype Certificate = Certified(run: nat) | Withheld(run: nat)

  datatype Db = Db(facts: map<Key, Fact>, lineage: map<Ingestion, seq<RawObject>>, audit: seq<AuditItem>,
                   certificates: map<Ingestion, Certificate>, cursor: map<nat, nat>)

  function ItemKeyOf(item: Item): ItemKey {
    ItemKey(item.key, item.original, item.found.rawHash, item.before)
  }

  // ---------------------------------------------------------------------------
  // Evidence
  // ---------------------------------------------------------------------------

  function Matching(raws: seq<RawObject>, key: Key): seq<RawObject> {
    if |raws| == 0 then []
    else Matching(raws[..|raws| - 1], key) + if key in raws[|raws| - 1].rows then [raws[|raws| - 1]] else []
  }

  /** The volume a legacy mapper would have stored for a target. */
  function LegacyVolume(raw: RawObject, target: Option<int>): Option<int> {
    if raw.legacyLots && target.Some? then (if target.value % 100 == 0 then Some(target.value / 100) else None) else target
  }

  /** `evaluate_fact`: exactly one Raw object must hold the key, and everything but the volume
      must agree; the volume is then correct, a legacy mapping, or unexplained. */
  function Evaluate(lineage: map<Ingestion, seq<RawObject>>, key: Key, fact: Fact): Evaluation {
    var matching := Matching(if fact.ingestion in lineage then lineage[fact.ingestion] else [], key);
    if |matching| != 1 then Evaluation(Quarantined, None, 0)
    else
      var raw := matching[0];
      if key !in raw.rows then Evaluation(Quarantined, None, 0)
      else
        var record := raw.rows[key];
        if record.rest != fact.rest then Evaluation(Quarantined, record.volume, raw.hash)
        else if fact.volume == record.volume then Evaluation(AlreadyCorrect, record.volume, raw.hash)
        else if raw.legacyLots && LegacyVolume(raw, record.volume) == fact.volume then Evaluation(Repair, record.volume, raw.hash)
        else Evaluation(Quarantined, record.volume, raw.hash)
  }

  /** `_recheck`: the fact and its Raw evidence are still what the preview saw. */
  predicate Rechecks(db: Db, item: Item, current: Fact) {
    current == item.before && Evaluate(db.lineage, item.key, current) == item.found
  }

  // ---------------------------------------------------------------------------
  // Applying one item
  // ---------------------------------------------------------------------------

  /** The earliest applied record of the same item, by any run. */
  function Previous(audit: seq<AuditItem>, item: ItemKey): (found: Option<AuditItem>)
    ensures found.Some? ==> found.value in audit && found.value.item == item && found.value.outcome in {Applied, AlreadyApplied}
  {
    if |audit| == 0 then None
    else
      var earlier := Previous(audit[..|audit| - 1], item);
      var last := audit[|audit| - 1];
      if earlier.Some? then earlier
      else if last.item == item && last.outcome in {Applied, AlreadyApplied} then Some(last) else None
  }

  function Current(db: Db, key: Key): Option<Fact> {
    if key in db.facts then Some(db.facts[key]) else None
  }

  predicate IsAlreadyApplied(db: Db, item: Item) {
    var previous, current := Previous(db.audit, ItemKeyOf(item)), Current(db, item.key);
    previous.Some? && current.Some? && Some(current.value) == previous.value.after
    && Some(current.value.ingestion) == previous.value.derived
  }

  predicate IsMatched(db: Db, item: Item) {
    var current := Current(db, item.key);
    current == Some(item.before) && current.value.ingestion == item.original && Rechecks(db, item, current.value)
  }

  function Repaired(run: nat, item: Item): Fact {
    item.before.(volume := item.found.target, ingestion := Derived(run, ItemKeyOf(item)))
  }

  /** `_apply_item`. */
  function ApplyItem(db: Db, run: nat, item: Item): Db {
    var key := ItemKeyOf(item);
    var already, matched := IsAlreadyApplied(db, item), IsMatched(db, item);
    var previous := Previous(db.audit, key);
    var own := Derived(run, key);
    var after := if matched then Some(Repaired(run, item)) else if already then previous.value.after else None;
    var id := if matched then Some(own) else if already then previous.value.derived else None;
    var record := AuditItem(run, key, item.before, after, id, if already then AlreadyApplied else if matched then Applied else Conflict);
    var written := db.(audit := db.audit + [record]);
    if matched then
      written.(
        facts := db.facts[item.key := Repaired(run, item)],
        lineage := db.lineage[own := Matching(if item.original in db.lineage then db.lineage[item.original] else [], item.key)],
        certificates := db.certificates[own := Certified(run)])
    else written
  }

  // ---------------------------------------------------------------------------
  // Certifying one ingestion
  // ---------------------------------------------------------------------------

  const MAX_CERTIFICATION_ROWS: nat := 5000

  /** `certification_eligible`. */
  predicate Eligible(group: seq<Item>) {
    && |group| > 0
    && (forall i :: 0 <= i < |group| ==> group[i].found.status == AlreadyCorrect)
    && |group| == group[0].ingestionRows && |group| <= MAX_CERTIFICATION_ROWS
  }

  function Referencing(db: Db, id: Ingestion): set<Key> {
    set key | key in db.facts && db.facts[key].ingestion == id
  }

  /** The rows the certifying transaction locks: at most one more than it can certify. */
  function LockedRows(db: Db, id: Ingestion): nat {
    var n := |Referencing(db, id)|;
    if n > MAX_CERTIFICATION_ROWS + 1 then MAX_CERTIFICATION_ROWS + 1 else n
  }

  predicate RowCertifiable(db: Db, group: seq<Item>, key: Key)
    requires key in db.facts
  {
    exists i :: 0 <= i < |group| && group[i].key == key && Rechecks(db, group[i], db.facts[key])
  }

  predicate GroupComplete(db: Db, group: seq<Item>)
    requires |group| > 0
  {
    && Eligible(group)
    && LockedRows(db, group[0].original) == |group|
    && forall key :: key in Referencing(db, group[0].original) ==> RowCertifiable(db, group, key)
  }

  /** Whether a previous certificate is kept: the scope missed facts of the ingestion. */
  predicate IncompleteScope(db: Db, group: seq<Item>)
    requires |group| > 0
  {
    if Eligible(group) then LockedRows(db, group[0].original) != |group|
    else |group| != group[0].ingestionRows || |group| > MAX_CERTIFICATION_ROWS
  }

  /** `_certify_existing_group` with `_certificate`. */
  function CertifyGroup(db: Db, run: nat, group: seq<Item>): Db
    requires |group| > 0
  {
    var id := group[0].original;
    if IncompleteScope(db, group) && id in db.certificates && db.certificates[id].Certified? then db
    else db.(certificates := db.certificates[id := if GroupComplete(db, group) then Certified(run) else Withheld(run)])
  }

  // ---------------------------------------------------------------------------
  // A plan's actions, and batches of them
  // ---------------------------------------------------------------------------

  datatype Action = RepairOne(item: Item) | CertifyAll(group: seq<Item>)

  predicate ValidAction(a: Action) { a.CertifyAll? ==> |a.group| > 0 }

  function Perform(db: Db, run: nat, a: Action): Db
    requires ValidAction(a)
  {
    match a
    case RepairOne(item) => ApplyItem(db, run, item)
    case CertifyAll(group) => CertifyGroup(db, run, group)
  }

  function PerformAll(db: Db, run: nat, actions: seq<Action>): Db
    requires forall a :: a in actions ==> ValidAction(a)
  {
    if |actions| == 0 then db else Perform(PerformAll(db, run, actions[..|actions| - 1]), run, actions[|actions| - 1])
  }

  function Cost(a: Action): nat {
    if a.RepairOne? then 1 else if |a.group| < 500 then |a.group| else 500
  }

  function TotalCost(actions: seq<Action>): nat {
    if |actions| == 0 then 0 else TotalCost(actions[..|actions| - 1]) + Cost(actions[|actions| - 1])
  }

  /** How many further actions join a batch already holding `taken` of cost `cost`. */
  function BatchLength(actions: seq<Action>, batchSize: nat, taken: nat, cost: nat): (n: nat)
    requires taken <= |actions| && cost == TotalCost(actions[..taken]) && (taken <= 1 || cost <= batchSize)
    ensures taken <= n <= |actions|
    ensures |actions| > 0 ==> n > 0
    ensures n <= 1 || TotalCost(actions[..n]) <= batchSize
    decreases |actions| - taken
  {
    if taken == |actions| then taken
    else
      assert actions[..taken + 1][..taken] == actions[..taken];
      if taken > 0 && cost + Cost(actions[taken]) > batchSize then taken
      else BatchLength(actions, batchSize, taken + 1, cost + Cost(actions[taken]))
  }

  function CursorOf(db: Db, run: nat): nat { if run in db.cursor then db.cursor[run] else 0 }

  /** One committed batch: the pending actions and the cursor move together. */
  function Batch(db: Db, run: nat, actions: seq<Action>, batchSize: nat): Db
    requires forall a :: a in actions ==> ValidAction(a)
  {
    var start := CursorOf(db, run);
    if start >= |actions| then db
    else
      var rest := actions[start..];
      var n := BatchLength(rest, batchSize, 0, 0);
      var done := PerformAll(db, run, rest[..n]);
      done.(cursor := done.cursor[run := start + n])
  }

  // ---------------------------------------------------------------------------
  // Rolling back
  // ---------------------------------------------------------------------------

  predicate StillAsApplied(db: Db, record: AuditItem) {
    var current := Current(db, record.item.key);
    current.Some? && current == record.after && Some(current.value.ingestion) == record.derived
  }

  /** `rollback_plan` for the audit record at position `i`. */
  function RollbackAt(db: Db, i: nat): Db
    requires i < |db.audit|
  {
    var record := db.audit[i];
    if StillAsApplied(db, record) then
      var current := db.facts[record.item.key];
      db.(
        facts := db.facts[record.item.key := current.(volume := record.before.volume, ingestion := record.item.original)],
        certificates := db.certificates[record.item.original := Withheld(record.run)][current.ingestion := Withheld(record.run)],
        audit := db.audit[i := record.(outcome := RolledBack)])
    else db.(audit := db.audit[i := record.(outcome := RollbackConflict)])
  }

  /** Rolling back records one after another, in whatever order they are selected. */
  function RollbackAll(db: Db, order: seq<nat>): (r: Db)
    requires forall i :: 0 <= i < |order| ==> order[i] < |db.audit|
    ensures |r.audit| == |db.audit|
  {
    if |order| == 0 then db else RollbackAt(RollbackAll(db, order[..|order| - 1]), order[|order| - 1])
  }

  // ---------------------------------------------------------------------------
  // Compare and set
  // ---------------------------------------------------------------------------

  ghost predicate DistinctKeys(actions: seq<Action>) {
    forall i, j :: 0 <= i < j < |actions| && actions[i].RepairOne? && actions[j].RepairOne? ==>
      actions[i].item.key != actions[j].item.key
  }

  /** A repair of the action list touched this fact, from exactly the previewed state. */
  ghost predicate RepairedBy(before: Db, after: Db, run: nat, actions: seq<Action>, key: Key) {
    exists i :: 0 <= i < |actions| && actions[i].RepairOne? && actions[i].item.key == key
      && Current(before, key) == Some(actions[i].item.before)
      && Current(after, key) == Some(Repaired(run, actions[i].item))
  }

  lemma ActionComparesAndSets(db: Db, run: nat, a: Action, key: Key)
    requires ValidAction(a)
    ensures
      var after := Perform(db, run, a);
      || Current(after, key) == Current(db, key)
      || (a.RepairOne? && a.item.key == key && Current(db, key) == Some(a.item.before) && Current(after, key) == Some(Repaired(run, a.item)))
  {
    hide Rechecks, IncompleteScope, GroupComplete, IsAlreadyApplied, Previous, Matching;
  }

  /** One more action: the keys being distinct, a repaired fact stays repaired, and an untouched one
      is touched at most by that action. */
  lemma StillRepaired(db: Db, before: Db, after: Db, run: nat, actions: seq<Action>, key: Key)
    requires |actions| > 0 && DistinctKeys(actions)
    requires Current(before, key) == Current(db, key) || RepairedBy(db, before, run, actions[..|actions| - 1], key)
    requires
      var a := actions[|actions| - 1];
      || Current(after, key) == Current(before, key)
      || (a.RepairOne? && a.item.key == key && Current(before, key) == Some(a.item.before) && Current(after, key) == Some(Repaired(run, a.item)))
    ensures Current(after, key) == Current(db, key) || RepairedBy(db, after, run, actions, key)
  {
    hide Current, Repaired;
    var n := |actions| - 1;
    if Current(before, key) != Current(db, key) {
      var i :| 0 <= i < n && actions[..n][i].RepairOne? && actions[..n][i].item.key == key
        && Current(db, key) == Some(actions[..n][i].item.before)
        && Current(before, key) == Some(Repaired(run, actions[..n][i].item));
      assert actions[i] == actions[..n][i];
    }
  }

  /** Whatever was written in between, performing actions changes a fact only while it equals its
      previewed state, and then to exactly its repaired state. */
  lemma {:induction false} ActionsCompareAndSet(db: Db, run: nat, actions: seq<Action>, key: Key)
    requires (forall a :: a in actions ==> ValidAction(a)) && DistinctKeys(actions)
    ensures
      var after := PerformAll(db, run, actions);
      Current(after, key) == Current(db, key) || RepairedBy(db, after, run, actions, key)
  {
    hide Perform, Repaired, Current, RepairedBy, ValidAction;
    if |actions| > 0 {
      var n := |actions| - 1;
      ActionsCompareAndSet(db, run, actions[..n], key);
      ActionComparesAndSets(PerformAll(db, run, actions[..n]), run, actions[n], key);
      StillRepaired(db, PerformAll(db, run, actions[..n]), PerformAll(db, run, actions), run, actions, key);
    }
  }

  lemma DistinctSlice(actions: seq<Action>, start: nat, n: nat)
    requires start + n <= |actions| && DistinctKeys(actions)
    ensures DistinctKeys(actions[start..][..n]) && forall a :: a in actions[start..][..n] ==> a in actions
  {
    var slice := actions[start..][..n];
    forall i, j | 0 <= i < j < |slice| && slice[i].RepairOne? && slice[j].RepairOne? ensures slice[i].item.key != slice[j].item.key {
      assert slice[i] == actions[start + i] && slice[j] == actions[start + j];
    }
  }

  lemma SliceRepairs(before: Db, after: Db, after': Db, run: nat, actions: seq<Action>, start: nat, n: nat, key: Key)
    requires start + n <= |actions| && after'.facts == after.facts
    requires Current(after, key) == Current(before, key) || RepairedBy(before, after, run, actions[start..][..n], key)
    ensures Current(after', key) == Current(before, key) || RepairedBy(before, after', run, actions, key)
  {
    hide Repaired;
    if Current(after, key) != Current(before, key) {
      var slice := actions[start..][..n];
      var i :| 0 <= i < |slice| && slice[i].RepairOne? && slice[i].item.key == key
        && Current(before, key) == Some(slice[i].item.before) && Current(after, key) == Some(Repaired(run, slice[i].item));
      assert actions[start + i] == slice[i];
    }
  }

  /** One committed batch compares and sets, from any database state. */
  lemma BatchComparesAndSets(db: Db, run: nat, actions: seq<Action>, batchSize: nat, key: Key)
    requires (forall a :: a in actions ==> ValidAction(a)) && DistinctKeys(actions)
    ensures
      var after := Batch(db, run, actions, batchSize);
      Current(after, key) == Current(db, key) || RepairedBy(db, after, run, actions, key)
  {
    hide PerformAll, RepairedBy, BatchLength, ValidAction, DistinctKeys;
    var start := CursorOf(db, run);
    if start < |actions| {
      var n := BatchLength(actions[start..], batchSize, 0, 0);
      DistinctSlice(actions, start, n);
      ActionsCompareAndSet(db, run, actions[start..][..n], key);
      SliceRepairs(db, PerformAll(db, run, actions[start..][..n]), Batch(db, run, actions, batchSize), run, actions, start, n, key);
    }
  }

  /** Rollback changes a fact only while it is exactly the recorded after state, and then
      restores the recorded volume and lineage. */
  lemma RollbackComparesAndSets(db: Db, i: nat, key: Key)
    requires i < |db.audit|
    ensures
      var after, record := RollbackAt(db, i), db.audit[i];
      Current(after, key) != Current(db, key) ==>
        && key == record.item.key && Current(db, key) == record.after && db.facts[key].ingestion == record.derived.GetOr(record.item.original)
        && Current(after, key) == Some(db.facts[key].(volume := record.before.volume, ingestion := record.item.original))
  {
  }

  // ---------------------------------------------------------------------------
  // The audit trail
  // ---------------------------------------------------------------------------

  /** An applied record derives its ingestion from its own run and item; a record that found its
      item already applied points to a derivation of the same item. */
  ghost predicate RecordSound(r: AuditItem) {
    && (r.outcome == Applied ==> r.derived == Some(Derived(r.run, r.item)))
    && (r.outcome == AlreadyApplied ==> r.derived.Some? && r.derived.value.Derived? && r.derived.value.item == r.item)
  }

  ghost predicate AuditSound(db: Db) {
    forall i :: 0 <= i < |db.audit| ==> RecordSound(db.audit[i])
  }

  function Depth(i: Ingestion): nat {
    match i
    case Original(_) => 0
    case Derived(_, item) => 1 + Depth(item.original)
  }

  /** A fact is never at once in its previewed state and in an already repaired one. */
  lemma NeverBothMatchedAndApplied(db: Db, item: Item)
    requires AuditSound(db)
    ensures !(IsMatched(db, item) && IsAlreadyApplied(db, item))
  {
    var previous := Previous(db.audit, ItemKeyOf(item));
    if previous.Some? {
      assert RecordSound(previous.value);
      NotDerivedFromItself(previous.value.derived.value.run, ItemKeyOf(item));
    }
  }

  lemma NotDerivedFromItself(run: nat, item: ItemKey)
    ensures item.original != Derived(run, item)
  {
    assert Depth(Derived(run, item)) == 1 + Depth(item.original);
  }

  lemma ApplyKeepsAuditSound(db: Db, run: nat, item: Item)
    requires AuditSound(db)
    ensures AuditSound(ApplyItem(db, run, item))
  {
    hide Rechecks, Previous, Matching, Repaired;
    var previous := Previous(db.audit, ItemKeyOf(item));
    NeverBothMatchedAndApplied(db, item);
    if previous.Some? { assert RecordSound(previous.value); }
  }

  lemma RollbackKeepsAuditSound(db: Db, i: nat)
    requires AuditSound(db) && i < |db.audit|
    ensures AuditSound(RollbackAt(db, i))
  {
  }

  lemma {:induction false} ActionsKeepAuditSound(db: Db, run: nat, actions: seq<Action>)
    requires (forall a :: a in actions ==> ValidAction(a)) && AuditSound(db)
    ensures AuditSound(PerformAll(db, run, actions))
  {
    if |actions| > 0 {
      var n := |actions| - 1;
      ActionsKeepAuditSound(db, run, actions[..n]);
      if actions[n].RepairOne? { ApplyKeepsAuditSound(PerformAll(db, run, actions[..n]), run, actions[n].item); }
      hide ApplyItem, CertifyGroup;
    }
  }

  /** Rolling back one plan never touches a fact another plan's repair produced. */
  lemma OtherPlansUntouched(db: Db, i: nat, key: Key)
    requires AuditSound(db) && i < |db.audit| && db.audit[i].outcome == Applied
    requires key in db.facts && db.facts[key].ingestion.Derived? && db.facts[key].ingestion.run != db.audit[i].run
    ensures Current(RollbackAt(db, i), key) == Current(db, key)
  {
    assert RecordSound(db.audit[i]);
  }

  // ---------------------------------------------------------------------------
  // Resumption
  // ---------------------------------------------------------------------------

  /** The database after exactly the first `c` actions, cursor included. */
  function Progress(db: Db, run: nat, actions: seq<Action>, c: nat): Db
    requires (forall a :: a in actions ==> ValidAction(a)) && c <= |actions|
  {
    PerformAll(db, run, actions[..c]).(cursor := db.cursor[run := c])
  }

  lemma {:induction false} PerformAllConcat(db: Db, run: nat, a: seq<Action>, b: seq<Action>)
    requires (forall x :: x in a ==> ValidAction(x)) && (forall x :: x in b ==> ValidAction(x))
    ensures forall x :: x in a + b ==> ValidAction(x)
    ensures PerformAll(db, run, a + b) == PerformAll(PerformAll(db, run, a), run, b)
  {
    if |b| == 0 {
      assert a + b == a;
    } else {
      assert (a + b)[..|a + b| - 1] == a + b[..|b| - 1];
      PerformAllConcat(db, run, a, b[..|b| - 1]);
    }
  }

  lemma ActionIgnoresCursor(db: Db, run: nat, a: Action, cursor: map<nat, nat>)
    requires ValidAction(a)
    ensures Perform(db.(cursor := cursor), run, a) == Perform(db, run, a).(cursor := cursor)
    ensures Perform(db, run, a).cursor == db.cursor
  {
    var moved := db.(cursor := cursor);
    match a
    case RepairOne(item) =>
      hide Evaluate, Previous, Matching;
      assert IsMatched(moved, item) == IsMatched(db, item) && IsAlreadyApplied(moved, item) == IsAlreadyApplied(db, item);
      hide IsMatched, IsAlreadyApplied;
    case CertifyAll(group) =>
      CertifyIgnoresCursor(db, group, cursor);
      hide GroupComplete, IncompleteScope;
  }

  lemma CertifyIgnoresCursor(db: Db, group: seq<Item>, cursor: map<nat, nat>)
    requires |group| > 0
    ensures GroupComplete(db.(cursor := cursor), group) == GroupComplete(db, group)
    ensures IncompleteScope(db.(cursor := cursor), group) == IncompleteScope(db, group)
  {
    hide Evaluate, Eligible;
    var moved, id := db.(cursor := cursor), group[0].original;
    assert Referencing(moved, id) == Referencing(db, id);
    assert forall key, i :: 0 <= i < |group| && key in db.facts ==>
      Rechecks(moved, group[i], db.facts[key]) == Rechecks(db, group[i], db.facts[key]);
    hide Rechecks;
    assert forall key :: key in db.facts ==> RowCertifiable(moved, group, key) == RowCertifiable(db, group, key);
  }

  /** Actions neither read nor write any cursor. */
  lemma {:induction false} CursorIsSeparate(db: Db, run: nat, actions: seq<Action>, cursor: map<nat, nat>)
    requires forall a :: a in actions ==> ValidAction(a)
    ensures PerformAll(db.(cursor := cursor), run, actions) == PerformAll(db, run, actions).(cursor := cursor)
    ensures PerformAll(db, run, actions).cursor == db.cursor
  {
    hide Perform, ValidAction;
    if |actions| > 0 {
      var last := |actions| - 1;
      CursorIsSeparate(db, run, actions[..last], cursor);
      ActionIgnoresCursor(PerformAll(db, run, actions[..last]), run, actions[last], cursor);
    }
  }

  lemma Cut<T>(s: seq<T>, c: nat, n: nat)
    requires c + n <= |s|
    ensures s[c..][..n] == s[c..c + n] && s[..c + n] == s[..c] + s[c..c + n]
  {
  }

  /** A batch started at cursor `c` performs the next `n` actions and moves the cursor past them. */
  lemma BatchAtCursor(db: Db, run: nat, actions: seq<Action>, batchSize: nat, c: nat, n: nat)
    requires (forall a :: a in actions ==> ValidAction(a)) && c < |actions|
    requires n == BatchLength(actions[c..], batchSize, 0, 0)
    ensures Batch(db.(cursor := db.cursor[run := c]), run, actions, batchSize)
         == PerformAll(db, run, actions[c..][..n]).(cursor := db.cursor[run := c + n])
  {
    hide PerformAll, BatchLength, ValidAction;
    CursorIsSeparate(db, run, actions[c..][..n], db.cursor[run := c]);
    assert db.cursor[run := c][run := c + n] == db.cursor[run := c + n];
  }

  /** A batch from any progress point is progress: at least one action further while any is left,
      and a single action or within the batch size. */
  lemma BatchIsProgress(db: Db, run: nat, actions: seq<Action>, c: nat, batchSize: nat) returns (d: nat)
    requires (forall a :: a in actions ==> ValidAction(a)) && c <= |actions|
    ensures c <= d <= |actions| && (c < |actions| ==> c < d)
    ensures d - c <= 1 || TotalCost(actions[c..d]) <= batchSize
    ensures Batch(Progress(db, run, actions, c), run, actions, batchSize) == Progress(db, run, actions, d)
  {
    hide PerformAll, ValidAction;
    if c == |actions| {
      d := c;
    } else {
      var n := BatchLength(actions[c..], batchSize, 0, 0);
      d := c + n;
      Cut(actions, c, n);
      PerformAllConcat(db, run, actions[..c], actions[c..d]);
      CursorIsSeparate(db, run, actions[..c], db.cursor);
      BatchAtCursor(PerformAll(db, run, actions[..c]), run, actions, batchSize, c, n);
      hide Batch;
    }
  }

  function Batches(db: Db, run: nat, actions: seq<Action>, sizes: seq<nat>): Db
    requires forall a :: a in actions ==> ValidAction(a)
  {
    if |sizes| == 0 then db else Batch(Batches(db, run, actions, sizes[..|sizes| - 1]), run, actions, sizes[|sizes| - 1])
  }

  /** Resumption is exactly once and in order: however a run is cut into batches, of whatever
      sizes and with crashes between them, the database is always that of an uninterrupted run
      stopped after some prefix of the actions; enough batches finish all of them. */
  lemma {:induction false} ResumptionIsExactlyOnce(db: Db, run: nat, actions: seq<Action>, sizes: seq<nat>) returns (c: nat)
    requires (forall a :: a in actions ==> ValidAction(a))
    ensures c <= |actions| && (|sizes| >= |actions| ==> c == |actions|) && (|sizes| < |actions| ==> |sizes| <= c)
    ensures Batches(Progress(db, run, actions, 0), run, actions, sizes) == Progress(db, run, actions, c)
  {
    if |sizes| == 0 {
      c := 0;
    } else {
      var n := |sizes| - 1;
      var before := ResumptionIsExactlyOnce(db, run, actions, sizes[..n]);
      c := BatchIsProgress(db, run, actions, before, sizes[n]);
    }
  }
}
