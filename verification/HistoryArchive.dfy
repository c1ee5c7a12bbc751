/** One-off retirement of history: a verified archive is applied to its table in batches, each of
    which deletes exactly archived rows or aborts; restoring inserts the archived rows again. */
module HistoryArchive {
  import opened Wrappers

  type Key = nat

  /** One archived row: its primary key and its whole text. */
  datatype Line = Line(key: Key, text: nat)

  /** What one statement sees: the rows, which keys satisfy the plan's predicate, and which are the
      target of a foreign key. */
  datatype View = View(rows: map<Key, nat>, scope: set<Key>, referenced: set<Key>)

  datatype Abort =
    | ArchiveChanged | ArchiveGrew | DuplicateKeys | RowChanged | RowChangedOutsideScope
    | ReferencedRowsRemain | ProjectionMismatch | ExistingRowChanged

  function Keys(batch: seq<Line>): set<Key> { set i | 0 <= i < |batch| :: batch[i].key }

  predicate DistinctKeys(batch: seq<Line>) { forall i, j :: 0 <= i < j < |batch| ==> batch[i].key != batch[j].key }

  /** The rows a statement joined to the batch and restricted to the predicate finds. */
  function Selected(v: View, batch: seq<Line>): map<Key, nat> { InScope(v, Keys(batch)) }

  function InScope(v: View, keys: set<Key>): map<Key, nat> {
    map key | key in keys && key in v.rows && key in v.scope :: v.rows[key]
  }

  // ---------------------------------------------------------------------------
  // One transaction
  // ---------------------------------------------------------------------------

  predicate Unchanged(v: View, line: Line) { line.key in v.rows && line.key in v.scope ==> v.rows[line.key] == line.text }

  predicate NotMoved(v: View, line: Line) { line.key in v.rows ==> line.key in v.scope }

  /** The checks before the delete, in their order. */
  function CheckBatch(v: View, batch: seq<Line>): Option<Abort> {
    if !DistinctKeys(batch) then Some(DuplicateKeys)
    else if exists i :: 0 <= i < |batch| && !Unchanged(v, batch[i]) then Some(RowChanged)
    else if exists i :: 0 <= i < |batch| && !NotMoved(v, batch[i]) then Some(RowChangedOutsideScope)
    else if Selected(v, batch) != map[] && exists i :: 0 <= i < |batch| && batch[i].key in v.referenced then Some(ReferencedRowsRemain)
    else None
  }

  /** One batch: `v` is what the checks see and `w` what the delete sees; other sessions may have
      written anything in between. */
  function RemoveBatch(v: View, w: View, batch: seq<Line>): Result<View, Abort> {
    if CheckBatch(v, batch).Some? then Failure(CheckBatch(v, batch).value)
    else if Selected(v, batch) == map[] then Success(w)
    else if Selected(w, batch) != Selected(v, batch) then Failure(ProjectionMismatch)
    else Success(w.(rows := w.rows - Selected(w, batch).Keys))
  }

  /** Whatever other sessions do between the checks and the delete, a committed batch removes only
      rows that are at that moment in scope and equal, text for text, to their archived line, and
      that nothing referenced; every other row stays as it is. */
  lemma RemovesOnlyArchivedRows(v: View, w: View, batch: seq<Line>, key: Key)
    requires RemoveBatch(v, w, batch).Success? && key in w.rows
    ensures
      var after := RemoveBatch(v, w, batch).value.rows;
      && after.Keys <= w.rows.Keys && (key in after ==> after[key] == w.rows[key])
      && (key !in after ==> Line(key, w.rows[key]) in batch && key in w.scope && key !in v.referenced)
  {
    if key !in RemoveBatch(v, w, batch).value.rows {
      assert key in Selected(w, batch) && Selected(v, batch)[key] == w.rows[key];
      var i :| 0 <= i < |batch| && batch[i].key == key;
      assert Unchanged(v, batch[i]);
      assert batch[i] == Line(key, w.rows[key]);
    }
  }

  /** An archived row that was changed, moved out of scope or is referenced is never lost: with it in
      the batch the transaction aborts. */
  lemma ChangedRowsAbort(v: View, w: View, batch: seq<Line>, i: nat)
    requires i < |batch| && batch[i].key in v.rows
    requires v.rows[batch[i].key] != batch[i].text || batch[i].key !in v.scope || batch[i].key in v.referenced
    ensures RemoveBatch(v, w, batch).Failure?
  {
    if Unchanged(v, batch[i]) && NotMoved(v, batch[i]) {
      assert batch[i].key in Selected(v, batch);
    }
  }

  /** Some line of the batch stands for a present row of that kind. */
  ghost predicate Finds(v: View, batch: seq<Line>, inScope: bool, changed: bool) {
    exists i :: 0 <= i < |batch| && batch[i].key in v.rows
      && (batch[i].key in v.scope <==> inScope) && (v.rows[batch[i].key] != batch[i].text <==> changed)
  }

  /** An abort before the delete names what was found, in this order: a repeated key, a row in scope with
      another text, a row out of scope, a referenced key while rows in scope remain. */
  lemma AbortNamesWhatWasFound(v: View, batch: seq<Line>)
    ensures
      var repeated := exists i, j :: 0 <= i < j < |batch| && batch[i].key == batch[j].key;
      var changed := Finds(v, batch, true, true);
      var moved := Finds(v, batch, false, true) || Finds(v, batch, false, false);
      var referenced := Finds(v, batch, true, false) && exists i :: 0 <= i < |batch| && batch[i].key in v.referenced;
      CheckBatch(v, batch)
        == if repeated then Some(DuplicateKeys)
           else if changed then Some(RowChanged)
           else if moved then Some(RowChangedOutsideScope)
           else if referenced then Some(ReferencedRowsRemain)
           else None
  {
    ChecksFind(v, batch);
    hide Unchanged, NotMoved, Finds, Selected;
  }

  lemma ChecksFind(v: View, batch: seq<Line>)
    ensures (exists i :: 0 <= i < |batch| && !Unchanged(v, batch[i])) <==> Finds(v, batch, true, true)
    ensures (exists i :: 0 <= i < |batch| && !NotMoved(v, batch[i])) <==> Finds(v, batch, false, true) || Finds(v, batch, false, false)
    ensures Selected(v, batch) != map[] <==> Finds(v, batch, true, true) || Finds(v, batch, true, false)
  {
    if Selected(v, batch) != map[] {
      var key :| key in Selected(v, batch);
      var i :| 0 <= i < |batch| && batch[i].key == key;
      assert key in v.rows && key in v.scope;
    }
    forall i | 0 <= i < |batch| && batch[i].key in v.rows && batch[i].key in v.scope ensures Selected(v, batch) != map[] {
      assert batch[i].key in Selected(v, batch);
    }
  }

  // ---------------------------------------------------------------------------
  // A whole application
  // ---------------------------------------------------------------------------

  datatype Progress = Progress(view: View, deleted: nat, absent: nat, stopped: Option<Abort>)

  function ApplyBatch(p: Progress, batch: seq<Line>): Progress {
    if p.stopped.Some? then p
    else
      var r := RemoveBatch(p.view, p.view, batch);
      var n := |Selected(p.view, batch)|;
      if r.Failure? then p.(stopped := Some(r.error))
      else Progress(r.value, p.deleted + n, p.absent + Missing(batch, n), None)
  }

  function Missing(batch: seq<Line>, found: nat): nat { if found <= |batch| then |batch| - found else 0 }

  function ApplyAll(v: View, batches: seq<seq<Line>>): Progress {
    if |batches| == 0 then Progress(v, 0, 0, None)
    else ApplyBatch(ApplyAll(v, batches[..|batches| - 1]), batches[|batches| - 1])
  }

  function AllKeys(batches: seq<seq<Line>>): set<Key> {
    if |batches| == 0 then {} else AllKeys(batches[..|batches| - 1]) + Keys(batches[|batches| - 1])
  }

  function LineCount(batches: seq<seq<Line>>): nat {
    if |batches| == 0 then 0 else LineCount(batches[..|batches| - 1]) + |batches[|batches| - 1]|
  }

  lemma SelectedIsPresent(v: View, batch: seq<Line>)
    requires CheckBatch(v, batch).None?
    ensures Selected(v, batch).Keys == v.rows.Keys * Keys(batch)
    ensures |Selected(v, batch)| == |v.rows.Keys * Keys(batch)| <= |batch|
  {
    forall key | key in v.rows && key in Keys(batch) ensures key in v.scope {
      var i :| 0 <= i < |batch| && batch[i].key == key;
      assert NotMoved(v, batch[i]);
    }
    assert Selected(v, batch).Keys == v.rows.Keys * Keys(batch);
    KeysBound(batch);
    Monotone(v.rows.Keys * Keys(batch), Keys(batch));
    assert |Selected(v, batch)| == |Selected(v, batch).Keys|;
  }

  lemma Monotone<T>(a: set<T>, b: set<T>)
    requires a <= b
    ensures |a| <= |b|
  {
    assert b == a + (b - a);
  }

  lemma {:induction false} KeysBound(batch: seq<Line>)
    ensures |Keys(batch)| <= |batch|
  {
    if |batch| > 0 {
      var n := |batch| - 1;
      KeysBound(batch[..n]);
      KeysStep(batch, n);
    }
  }

  lemma KeysStep(batch: seq<Line>, n: nat)
    requires n < |batch|
    ensures Keys(batch[..n + 1]) == Keys(batch[..n]) + {batch[n].key}
    ensures n + 1 == |batch| ==> batch[..n + 1] == batch
  {
    forall key | key in Keys(batch[..n]) ensures key in Keys(batch[..n + 1]) {
      var i :| 0 <= i < n && batch[..n][i].key == key;
      assert batch[..n + 1][i].key == key;
    }
    assert batch[..n + 1][n].key == batch[n].key;
    forall key | key in Keys(batch[..n + 1]) ensures key in Keys(batch[..n]) + {batch[n].key} {
      var i :| 0 <= i < n + 1 && batch[..n + 1][i].key == key;
      if i < n { assert batch[..n][i].key == key; }
    }
  }

  lemma RemovedIsSelected(v: View, batch: seq<Line>)
    requires RemoveBatch(v, v, batch).Success?
    ensures CheckBatch(v, batch).None?
    ensures RemoveBatch(v, v, batch).value == v.(rows := v.rows - Selected(v, batch).Keys)
  {
    hide CheckBatch, Selected;
    assert Selected(v, batch) == map[] ==> v.rows - Selected(v, batch).Keys == v.rows;
  }

  lemma WithoutAbsent(rows: map<Key, nat>, found: set<Key>, keys: set<Key>)
    requires found == rows.Keys * keys
    ensures rows - found == rows - keys
  {
  }

  /** Without interference a committed batch removes every row of its keys. */
  lemma BatchRemovesItsKeys(v: View, batch: seq<Line>)
    requires RemoveBatch(v, v, batch).Success?
    ensures RemoveBatch(v, v, batch).value == v.(rows := v.rows - Keys(batch))
    ensures |Selected(v, batch)| == |v.rows.Keys * Keys(batch)| <= |batch|
  {
    hide CheckBatch, Keys, Selected;
    SelectedIsPresent(v, batch);
    RemovedIsSelected(v, batch);
    WithoutAbsent(v.rows, Selected(v, batch).Keys, Keys(batch));
  }

  /** One more batch after the keys in `gone` were removed. */
  lemma ApplyBatchExact(v: View, gone: set<Key>, p: Progress, batch: seq<Line>)
    requires p.stopped.None? && p.view == v.(rows := v.rows - gone) && p.deleted == |v.rows.Keys * gone|
    requires ApplyBatch(p, batch).stopped.None?
    ensures
      var q := ApplyBatch(p, batch);
      && q.view == v.(rows := v.rows - (gone + Keys(batch))) && q.deleted == |v.rows.Keys * (gone + Keys(batch))|
      && q.deleted + q.absent == p.deleted + p.absent + |batch|
  {
    BatchRemovesItsKeys(p.view, batch);
    RemovedTwice(v.rows, gone, Keys(batch));
    hide RemoveBatch, Keys, Selected;
  }

  /** What a run without interference has done, however far it got: some number of whole batches
      removed exactly their keys, and each of their lines was either deleted or already absent. A
      stopped run keeps its earlier batches and changes nothing in the one that failed. */
  ghost predicate WholeBatches(v: View, batches: seq<seq<Line>>, p: Progress, done: nat) {
    && done <= |batches| && (p.stopped.None? <==> done == |batches|)
    && p.view == v.(rows := v.rows - AllKeys(batches[..done]))
    && p.deleted == |v.rows.Keys * AllKeys(batches[..done])|
    && p.deleted + p.absent == LineCount(batches[..done])
    && (p.stopped.Some? ==> RemoveBatch(p.view, p.view, batches[done]) == Failure(p.stopped.value))
  }

  lemma {:induction false} ApplyRemovesWholeBatches(v: View, batches: seq<seq<Line>>) returns (done: nat)
    ensures WholeBatches(v, batches, ApplyAll(v, batches), done)
  {
    if |batches| == 0 {
      done := 0;
      assert v.rows - {} == v.rows && v.rows.Keys * {} == {};
    } else {
      var n := |batches| - 1;
      done := ApplyRemovesWholeBatches(v, batches[..n]);
      done := OneMoreBatch(v, batches, ApplyAll(v, batches[..n]), done);
    }
  }

  lemma OneMoreBatch(v: View, batches: seq<seq<Line>>, p: Progress, before: nat) returns (done: nat)
    requires |batches| > 0 && WholeBatches(v, batches[..|batches| - 1], p, before)
    ensures WholeBatches(v, batches, ApplyBatch(p, batches[|batches| - 1]), done)
  {
    var n := |batches| - 1;
    var init, batch := batches[..n], batches[n];
    hide AllKeys, LineCount, Keys, RemoveBatch, ApplyBatch;
    done := before;
    assert init[..before] == batches[..before];
    if p.stopped.Some? {
      StoppedBefore(p, batch);
      assert init[before] == batches[before];
    } else if ApplyBatch(p, batch).stopped.Some? {
      StoppedBatch(p, batch);
    } else {
      ApplyBatchExact(v, AllKeys(init), p, batch);
      assert init[..n] == init;
      done := n + 1;
      OneMoreBatchKeys(batches);
    }
  }

  lemma OneMoreBatchKeys(batches: seq<seq<Line>>)
    requires |batches| > 0
    ensures batches[..|batches|] == batches
    ensures AllKeys(batches) == AllKeys(batches[..|batches| - 1]) + Keys(batches[|batches| - 1])
    ensures LineCount(batches) == LineCount(batches[..|batches| - 1]) + |batches[|batches| - 1]|
  {
    hide Keys;
  }

  lemma StoppedBatch(p: Progress, batch: seq<Line>)
    requires p.stopped.None? && ApplyBatch(p, batch).stopped.Some?
    ensures ApplyBatch(p, batch) == p.(stopped := ApplyBatch(p, batch).stopped)
    ensures RemoveBatch(p.view, p.view, batch) == Failure(ApplyBatch(p, batch).stopped.value)
  {
  }

  lemma StoppedBefore(p: Progress, batch: seq<Line>)
    requires p.stopped.Some?
    ensures ApplyBatch(p, batch) == p
  {
  }

  lemma RemovedTwice(rows: map<Key, nat>, a: set<Key>, b: set<Key>)
    ensures (rows - a) - b == rows - (a + b)
    ensures |rows.Keys * (a + b)| == |rows.Keys * a| + |(rows - a).Keys * b|
  {
    assert rows.Keys * (a + b) == rows.Keys * a + (rows - a).Keys * b;
    assert (rows.Keys * a) !! ((rows - a).Keys * b);
  }

  /** A completed application leaves exactly the rows that were never archived, and its two counts
      are the archived rows that were present and those that were not. */
  lemma CompletedApplyIsExact(v: View, batches: seq<seq<Line>>)
    requires ApplyAll(v, batches).stopped.None?
    ensures ApplyAll(v, batches).view == v.(rows := v.rows - AllKeys(batches))
    ensures ApplyAll(v, batches).deleted == |v.rows.Keys * AllKeys(batches)|
    ensures ApplyAll(v, batches).deleted + ApplyAll(v, batches).absent == LineCount(batches)
  {
    var done := ApplyRemovesWholeBatches(v, batches);
    hide ApplyAll;
    assert batches[..done] == batches;
  }

  lemma {:induction false} PrefixKeys(batches: seq<seq<Line>>, k: nat)
    requires k <= |batches|
    ensures AllKeys(batches[..k]) <= AllKeys(batches)
  {
    if k < |batches| {
      assert batches[..|batches| - 1][..k] == batches[..k];
      PrefixKeys(batches[..|batches| - 1], k);
    } else {
      assert batches[..k] == batches;
    }
  }

  // ---------------------------------------------------------------------------
  // A whole application amid other writers
  // ---------------------------------------------------------------------------

  /** What one batch's checks and its delete see. Nothing relates it to what other batches see: other
      sessions may write anything between transactions and inside them. */
  datatype Sight = Sight(checks: View, deletes: View)

  datatype Counts = Counts(deleted: nat, absent: nat, stopped: Option<Abort>)

  function CountBatch(p: Counts, sight: Sight, batch: seq<Line>): Counts {
    if p.stopped.Some? then p
    else
      var r := RemoveBatch(sight.checks, sight.deletes, batch);
      var n := |Selected(sight.checks, batch)|;
      if r.Failure? then p.(stopped := Some(r.error)) else Counts(p.deleted + n, p.absent + Missing(batch, n), None)
  }

  /** The counts an application ends with when batch `i` sees `sights[i]`. */
  function CountAll(sights: seq<Sight>, batches: seq<seq<Line>>): Counts
    requires |sights| == |batches|
  {
    if |batches| == 0 then Counts(0, 0, None)
    else
      var n := |batches| - 1;
      CountBatch(CountAll(sights[..n], batches[..n]), sights[n], batches[n])
  }

  /** The rows a committed batch took away. */
  ghost function Taken(sight: Sight, batch: seq<Line>): set<Key> {
    var r := RemoveBatch(sight.checks, sight.deletes, batch);
    if r.Success? then sight.deletes.rows.Keys - r.value.rows.Keys else {}
  }

  ghost function TakenCount(sights: seq<Sight>, batches: seq<seq<Line>>): nat
    requires |sights| == |batches|
  {
    if |batches| == 0 then 0
    else
      var n := |batches| - 1;
      TakenCount(sights[..n], batches[..n]) + |Taken(sights[n], batches[n])|
  }

  /** A row taken away was in scope, nothing referenced it, and its text is archived. */
  ghost predicate WasArchived(sight: Sight, batch: seq<Line>, key: Key) {
    && key in sight.deletes.rows && Line(key, sight.deletes.rows[key]) in batch
    && key in sight.deletes.scope && key !in sight.checks.referenced
  }

  lemma TakenIsSelected(sight: Sight, batch: seq<Line>)
    requires RemoveBatch(sight.checks, sight.deletes, batch).Success?
    ensures |Taken(sight, batch)| == |Selected(sight.checks, batch)| <= |batch|
    ensures forall key :: key in Taken(sight, batch) ==> WasArchived(sight, batch, key)
  {
    PassedSelection(sight, batch);
    TakenKeys(sight, batch);
    SelectedIsPresent(sight.checks, batch);
    forall key | key in Taken(sight, batch) ensures WasArchived(sight, batch, key) {
      RemovesOnlyArchivedRows(sight.checks, sight.deletes, batch, key);
    }
    hide Taken, Selected, Keys, RemoveBatch;
    assert |Selected(sight.checks, batch)| == |Selected(sight.checks, batch).Keys|;
  }

  lemma PassedSelection(sight: Sight, batch: seq<Line>)
    requires RemoveBatch(sight.checks, sight.deletes, batch).Success?
    ensures CheckBatch(sight.checks, batch).None?
    ensures Selected(sight.checks, batch) == map[] || Selected(sight.deletes, batch) == Selected(sight.checks, batch)
  {
    hide CheckBatch, Selected;
  }

  lemma TakenKeys(sight: Sight, batch: seq<Line>)
    requires RemoveBatch(sight.checks, sight.deletes, batch).Success?
    ensures Taken(sight, batch) == Selected(sight.checks, batch).Keys
  {
    hide CheckBatch, Keys;
    var found := Selected(sight.checks, batch);
    if found != map[] {
      assert Selected(sight.deletes, batch) == found && found.Keys <= sight.deletes.rows.Keys;
    }
  }

  /** How far an application amid other writers got. */
  ghost predicate CountedTo(sights: seq<Sight>, batches: seq<seq<Line>>, p: Counts, done: nat)
    requires |sights| == |batches|
  {
    && done <= |batches| && (p.stopped.None? <==> done == |batches|)
    && p.deleted == TakenCount(sights[..done], batches[..done])
    && p.deleted + p.absent == LineCount(batches[..done])
    && (forall i, key :: 0 <= i < done && key in Taken(sights[i], batches[i]) ==> WasArchived(sights[i], batches[i], key))
    && (p.stopped.Some? ==> RemoveBatch(sights[done].checks, sights[done].deletes, batches[done]) == Failure(p.stopped.value))
  }

  /** Whatever other sessions write before, between and inside its transactions, an application takes
      only archived rows, counts every one it took, and accounts for every line of its whole batches. */
  lemma {:induction false} ApplyAmidWrites(sights: seq<Sight>, batches: seq<seq<Line>>) returns (done: nat)
    requires |sights| == |batches|
    ensures CountedTo(sights, batches, CountAll(sights, batches), done)
  {
    hide Taken, WasArchived, RemoveBatch, LineCount, TakenCount, CountBatch;
    if |batches| == 0 {
      done := 0;
      NothingCounted(sights, batches);
    } else {
      var n := |batches| - 1;
      done := ApplyAmidWrites(sights[..n], batches[..n]);
      done := OneMoreCounted(sights, batches, CountAll(sights[..n], batches[..n]), done);
    }
  }

  lemma NothingCounted(sights: seq<Sight>, batches: seq<seq<Line>>)
    requires |sights| == |batches| == 0
    ensures TakenCount(sights[..0], batches[..0]) == 0 == LineCount(batches[..0])
  {
  }

  lemma OneMoreCounted(sights: seq<Sight>, batches: seq<seq<Line>>, p: Counts, before: nat) returns (done: nat)
    requires |sights| == |batches| > 0 && CountedTo(sights[..|batches| - 1], batches[..|batches| - 1], p, before)
    ensures CountedTo(sights, batches, CountBatch(p, sights[|batches| - 1], batches[|batches| - 1]), done)
  {
    hide Taken, WasArchived, RemoveBatch, LineCount, TakenCount, CountBatch;
    var n := |batches| - 1;
    BatchCounted(p, sights[n], batches[n]);
    assert sights[..n][..before] == sights[..before] && batches[..n][..before] == batches[..before];
    assert forall i :: 0 <= i < n ==> sights[..n][i] == sights[i] && batches[..n][i] == batches[i];
    done := before;
    if CountBatch(p, sights[n], batches[n]).stopped.None? {
      done := n + 1;
      OneMoreTaken(sights, batches);
    }
  }

  lemma BatchCounted(p: Counts, sight: Sight, batch: seq<Line>)
    ensures
      var q := CountBatch(p, sight, batch);
      && (p.stopped.Some? ==> q == p)
      && (p.stopped.None? && q.stopped.Some? ==>
            && q == p.(stopped := q.stopped)
            && RemoveBatch(sight.checks, sight.deletes, batch) == Failure(q.stopped.value))
      && (q.stopped.None? ==>
            && p.stopped.None? && q.deleted == p.deleted + |Taken(sight, batch)|
            && q.deleted + q.absent == p.deleted + p.absent + |batch|
            && forall key :: key in Taken(sight, batch) ==> WasArchived(sight, batch, key))
  {
    hide Taken, WasArchived, RemoveBatch, Selected;
    if CountBatch(p, sight, batch).stopped.None? { TakenIsSelected(sight, batch); }
  }

  lemma OneMoreTaken(sights: seq<Sight>, batches: seq<seq<Line>>)
    requires |sights| == |batches| > 0
    ensures sights[..|batches|] == sights && batches[..|batches|] == batches
    ensures
      var n := |batches| - 1;
      TakenCount(sights, batches) == TakenCount(sights[..n], batches[..n]) + |Taken(sights[n], batches[n])|
    ensures LineCount(batches) == LineCount(batches[..|batches| - 1]) + |batches[|batches| - 1]|
  {
    hide Taken;
  }

  /** What the batches of an undisturbed application see. */
  function Undisturbed(v: View, batches: seq<seq<Line>>): (sights: seq<Sight>)
    ensures |sights| == |batches|
  {
    if |batches| == 0 then []
    else
      var n := |batches| - 1;
      var seen := ApplyAll(v, batches[..n]).view;
      Undisturbed(v, batches[..n]) + [Sight(seen, seen)]
  }

  /** The undisturbed application is the special case in which nobody else writes. */
  lemma {:induction false} UndisturbedCounts(v: View, batches: seq<seq<Line>>)
    ensures
      var p := ApplyAll(v, batches);
      CountAll(Undisturbed(v, batches), batches) == Counts(p.deleted, p.absent, p.stopped)
  {
    hide RemoveBatch, Selected, Missing;
    if |batches| > 0 {
      var n := |batches| - 1;
      UndisturbedCounts(v, batches[..n]);
      assert Undisturbed(v, batches)[..n] == Undisturbed(v, batches[..n]);
    }
  }

  // ---------------------------------------------------------------------------
  // When an application completes
  // ---------------------------------------------------------------------------

  /** No present row of the batch was changed, moved or, if the batch has one, referenced. */
  ghost predicate BatchUntouched(v: View, batch: seq<Line>) {
    && DistinctKeys(batch)
    && (forall i :: 0 <= i < |batch| && batch[i].key in v.rows ==> v.rows[batch[i].key] == batch[i].text && batch[i].key in v.scope)
    && ((exists i :: 0 <= i < |batch| && batch[i].key in v.rows) ==> Keys(batch) !! v.referenced)
  }

  lemma BatchPassesIffUntouched(v: View, batch: seq<Line>)
    ensures RemoveBatch(v, v, batch).Success? <==> BatchUntouched(v, batch)
  {
    hide CheckBatch, BatchUntouched, Selected;
    if CheckBatch(v, batch).None? { PassedIsUntouched(v, batch); } else { SomethingTouched(v, batch); }
  }

  lemma PassedIsUntouched(v: View, batch: seq<Line>)
    requires CheckBatch(v, batch).None?
    ensures BatchUntouched(v, batch)
  {
    forall i | 0 <= i < |batch| && batch[i].key in v.rows ensures v.rows[batch[i].key] == batch[i].text && batch[i].key in v.scope {
      assert Unchanged(v, batch[i]) && NotMoved(v, batch[i]);
    }
    if k :| 0 <= k < |batch| && batch[k].key in v.rows {
      assert NotMoved(v, batch[k]) && batch[k].key in Selected(v, batch);
    }
  }

  lemma SomethingTouched(v: View, batch: seq<Line>)
    requires CheckBatch(v, batch).Some?
    ensures !BatchUntouched(v, batch)
  {
    assert forall i :: 0 <= i < |batch| ==> batch[i].key in Keys(batch);
    if CheckBatch(v, batch) == Some(ReferencedRowsRemain) {
      var key :| key in Selected(v, batch);
      var i :| 0 <= i < |batch| && batch[i].key == key;
      var j :| 0 <= j < |batch| && batch[j].key in v.referenced;
      assert batch[j].key in Keys(batch) && batch[i].key in v.rows;
    }
  }

  ghost predicate Disjoint(batches: seq<seq<Line>>) {
    forall i, j :: 0 <= i < j < |batches| ==> Keys(batches[i]) !! Keys(batches[j])
  }

  /** Without interference an application completes exactly when every archived row still present is
      as archived, in scope and safe to delete. */
  lemma {:induction false} CompletesIffUntouched(v: View, batches: seq<seq<Line>>)
    requires Disjoint(batches)
    ensures ApplyAll(v, batches).stopped.None? <==> AllUntouched(v, batches)
  {
    if |batches| > 0 {
      var n := |batches| - 1;
      CompletesIffUntouched(v, batches[..n]);
      SplitUntouched(v, batches);
      var p := ApplyAll(v, batches[..n]);
      if p.stopped.None? {
        CompletedApplyIsExact(v, batches[..n]);
        LaterKeysUntouched(batches);
        SameBatchAfterwards(v, AllKeys(batches[..n]), batches[n]);
        BatchPassesIffUntouched(p.view, batches[n]);
      }
      hide AllUntouched, AllKeys, Disjoint, BatchUntouched, RemoveBatch, Keys;
    }
  }

  lemma SplitUntouched(v: View, batches: seq<seq<Line>>)
    requires |batches| > 0
    ensures AllUntouched(v, batches) <==>
      AllUntouched(v, batches[..|batches| - 1]) && BatchUntouched(v, batches[|batches| - 1])
  {
    hide BatchUntouched;
    assert forall i :: 0 <= i < |batches| - 1 ==> batches[..|batches| - 1][i] == batches[i];
  }

  /** A run over the first `k` batches and, after it was killed, a whole rerun both complete. */
  lemma RerunCompletes(v: View, batches: seq<seq<Line>>, k: nat)
    requires k <= |batches| && Disjoint(batches) && ApplyAll(v, batches).stopped.None?
    ensures ApplyAll(v, batches[..k]).stopped.None?
    ensures ApplyAll(ApplyAll(v, batches[..k]).view, batches).stopped.None?
  {
    hide ApplyAll, Keys, BatchUntouched, AllKeys;
    CompletesIffUntouched(v, batches);
    assert Disjoint(batches[..k]) && AllUntouched(v, batches[..k]);
    CompletesIffUntouched(v, batches[..k]);
    CompletedApplyIsExact(v, batches[..k]);
    UntouchedAfterPrefix(v, batches, k);
    CompletesIffUntouched(ApplyAll(v, batches[..k]).view, batches);
  }

  /** Together they end like one whole run, with the same rows deleted between them. */
  lemma RerunEndsAlike(v: View, batches: seq<seq<Line>>, k: nat)
    requires k <= |batches| && Disjoint(batches) && ApplyAll(v, batches).stopped.None?
    ensures
      var killed := ApplyAll(v, batches[..k]);
      var rerun := ApplyAll(killed.view, batches);
      && killed.stopped.None? && rerun.stopped.None? && rerun.view == ApplyAll(v, batches).view
      && killed.deleted + rerun.deleted == ApplyAll(v, batches).deleted
  {
    hide ApplyAll, AllKeys, Disjoint;
    var a, b := AllKeys(batches[..k]), AllKeys(batches);
    RerunCompletes(v, batches, k);
    CompletedApplyIsExact(v, batches[..k]);
    CompletedApplyIsExact(v, batches);
    CompletedApplyIsExact(ApplyAll(v, batches[..k]).view, batches);
    PrefixKeys(batches, k);
    SameRemainder(v.rows, a, b);
  }

  lemma SameRemainder(rows: map<Key, nat>, a: set<Key>, b: set<Key>)
    requires a <= b
    ensures (rows - a) - b == rows - b
    ensures |rows.Keys * b| == |rows.Keys * a| + |(rows - a).Keys * b|
  {
    RemovedTwice(rows, a, b);
    assert a + b == b;
  }

  lemma UntouchedAfterPrefix(v: View, batches: seq<seq<Line>>, k: nat)
    requires k <= |batches| && Disjoint(batches) && AllUntouched(v, batches)
    ensures AllUntouched(v.(rows := v.rows - AllKeys(batches[..k])), batches)
  {
    var gone := AllKeys(batches[..k]);
    forall b | 0 <= b < |batches| ensures BatchUntouched(v.(rows := v.rows - gone), batches[b]) {
      assert BatchUntouched(v, batches[b]);
      if b < k {
        KeyInAll(batches[..k], b);
        assert forall i :: 0 <= i < |batches[b]| ==> batches[b][i].key in Keys(batches[b]);
      } else {
        KeysComeFromBatch(batches[..k]);
        SameBatchAfterwards(v, gone, batches[b]);
      }
    }
  }

  ghost predicate AllUntouched(v: View, batches: seq<seq<Line>>) {
    forall i :: 0 <= i < |batches| ==> BatchUntouched(v, batches[i])
  }

  lemma LaterKeysUntouched(batches: seq<seq<Line>>)
    requires |batches| > 0 && Disjoint(batches)
    ensures AllKeys(batches[..|batches| - 1]) !! Keys(batches[|batches| - 1])
  {
    KeysComeFromBatch(batches[..|batches| - 1]);
  }

  lemma {:induction false} KeysComeFromBatch(batches: seq<seq<Line>>)
    ensures forall key :: key in AllKeys(batches) ==> exists i :: 0 <= i < |batches| && key in Keys(batches[i])
  {
    if |batches| > 0 {
      var init := batches[..|batches| - 1];
      KeysComeFromBatch(init);
      forall key | key in AllKeys(batches) ensures exists i :: 0 <= i < |batches| && key in Keys(batches[i]) {
        if key in AllKeys(init) {
          var i :| 0 <= i < |init| && key in Keys(init[i]);
          assert key in Keys(batches[i]);
        } else {
          assert key in Keys(batches[|batches| - 1]);
        }
      }
    }
  }

  lemma SameBatchAfterwards(v: View, removed: set<Key>, batch: seq<Line>)
    requires removed !! Keys(batch)
    ensures BatchUntouched(v.(rows := v.rows - removed), batch) <==> BatchUntouched(v, batch)
  {
    forall i | 0 <= i < |batch| ensures batch[i].key !in removed { assert batch[i].key in Keys(batch); }
  }

  // ---------------------------------------------------------------------------
  // Restoring
  // ---------------------------------------------------------------------------

  function Texts(batch: seq<Line>): map<Key, nat>
    requires DistinctKeys(batch)
  {
    if |batch| == 0 then map[] else Texts(batch[..|batch| - 1])[batch[|batch| - 1].key := batch[|batch| - 1].text]
  }

  /** One restore transaction: insert, leave conflicting rows, then every archived key must hold its
      archived text. */
  function RestoreBatch(rows: map<Key, nat>, batch: seq<Line>): Result<map<Key, nat>, Abort>
    requires DistinctKeys(batch)
  {
    var inserted := Texts(batch) + rows;
    if forall i :: 0 <= i < |batch| ==> batch[i].key in inserted && inserted[batch[i].key] == batch[i].text
    then Success(inserted) else Failure(ExistingRowChanged)
  }

  predicate AllDistinct(batches: seq<seq<Line>>) { forall b :: 0 <= b < |batches| ==> DistinctKeys(batches[b]) }

  function RestoreAll(rows: map<Key, nat>, batches: seq<seq<Line>>): Result<map<Key, nat>, Abort>
    requires AllDistinct(batches)
  {
    if |batches| == 0 then Success(rows)
    else
      var earlier := RestoreAll(rows, batches[..|batches| - 1]);
      if earlier.Failure? then earlier else RestoreBatch(earlier.value, batches[|batches| - 1])
  }

  lemma {:induction false} TextsAreLines(batch: seq<Line>)
    requires DistinctKeys(batch)
    ensures Texts(batch).Keys == Keys(batch) && forall i :: 0 <= i < |batch| ==> Texts(batch)[batch[i].key] == batch[i].text
  {
    if |batch| > 0 {
      var n := |batch| - 1;
      TextsAreLines(batch[..n]);
      KeysStep(batch, n);
      forall i | 0 <= i < |batch| ensures batch[i].key in Texts(batch) && Texts(batch)[batch[i].key] == batch[i].text {
        if i < n { assert batch[..n][i] == batch[i]; }
      }
    }
  }

  /** Restoring adds the missing lines and succeeds exactly when no archived key holds another text. */
  lemma RestoreBatchAdds(rows: map<Key, nat>, batch: seq<Line>)
    requires DistinctKeys(batch)
    ensures RestoreBatch(rows, batch).Success? <==>
      forall i :: 0 <= i < |batch| && batch[i].key in rows ==> rows[batch[i].key] == batch[i].text
    ensures RestoreBatch(rows, batch).Success? ==>
      && RestoreBatch(rows, batch).value.Keys == rows.Keys + Keys(batch)
      && (forall key :: key in rows ==> RestoreBatch(rows, batch).value[key] == rows[key])
      && (forall i :: 0 <= i < |batch| ==> RestoreBatch(rows, batch).value[batch[i].key] == batch[i].text)
  {
    TextsAreLines(batch);
    forall i | 0 <= i < |batch| ensures batch[i].key in Texts(batch) { assert batch[i].key in Keys(batch); }
  }

  ghost predicate HoldsLines(rows: map<Key, nat>, batches: seq<seq<Line>>) {
    forall b, i :: 0 <= b < |batches| && 0 <= i < |batches[b]| && batches[b][i].key in rows ==> rows[batches[b][i].key] == batches[b][i].text
  }

  /** A whole restore of an archive whose lines agree with the rows still there. */
  lemma {:induction false} RestoreAdds(rows: map<Key, nat>, batches: seq<seq<Line>>)
    requires AllDistinct(batches) && Disjoint(batches) && HoldsLines(rows, batches)
    ensures
      var r := RestoreAll(rows, batches);
      && r.Success? && r.value.Keys == rows.Keys + AllKeys(batches) && HoldsLines(r.value, batches)
      && forall key :: key in rows ==> r.value[key] == rows[key]
  {
    if |batches| > 0 {
      var n := |batches| - 1;
      var init, batch := batches[..n], batches[n];
      RestoreAdds(rows, init);
      var mid := RestoreAll(rows, init).value;
      hide RestoreBatch, Texts, HoldsLines;
      LastBatchAgrees(rows, batches, batch, mid);
      RestoreBatchAdds(mid, batch);
      LinesKept(batches, batch, mid, RestoreBatch(mid, batch).value);
    }
  }

  lemma LastBatchAgrees(rows: map<Key, nat>, batches: seq<seq<Line>>, batch: seq<Line>, mid: map<Key, nat>)
    requires |batches| > 0 && batch == batches[|batches| - 1] && Disjoint(batches) && HoldsLines(rows, batches)
    requires mid.Keys == rows.Keys + AllKeys(batches[..|batches| - 1]) && forall key :: key in rows ==> mid[key] == rows[key]
    ensures forall i :: 0 <= i < |batch| && batch[i].key in mid ==> mid[batch[i].key] == batch[i].text
  {
    LaterKeysUntouched(batches);
    forall i | 0 <= i < |batch| && batch[i].key in mid ensures mid[batch[i].key] == batch[i].text {
      assert batch[i].key in Keys(batch);
      hide AllKeys, Keys;
      assert batches[|batches| - 1][i].key in rows;
    }
  }

  lemma LinesKept(batches: seq<seq<Line>>, batch: seq<Line>, before: map<Key, nat>, after: map<Key, nat>)
    requires |batches| > 0 && batch == batches[|batches| - 1] && HoldsLines(before, batches[..|batches| - 1])
    requires AllKeys(batches[..|batches| - 1]) <= before.Keys
    requires before.Keys <= after.Keys && forall key :: key in before ==> after[key] == before[key]
    requires forall i :: 0 <= i < |batch| ==> batch[i].key in after && after[batch[i].key] == batch[i].text
    ensures HoldsLines(after, batches)
  {
    var init := batches[..|batches| - 1];
    forall b, i | 0 <= b < |batches| && 0 <= i < |batches[b]| && batches[b][i].key in after
      ensures after[batches[b][i].key] == batches[b][i].text
    {
      if b < |init| {
        assert init[b] == batches[b] && batches[b][i].key in Keys(batches[b]);
        KeyInAll(init, b);
      }
    }
  }

  lemma {:induction false} KeyInAll(batches: seq<seq<Line>>, b: nat)
    requires b < |batches|
    ensures Keys(batches[b]) <= AllKeys(batches)
  {
    if b < |batches| - 1 { KeyInAll(batches[..|batches| - 1], b); }
  }

  /** Restoring after a completed application puts back every row of the table before it, and adds
      exactly the archived rows that were already absent: the table is the original one if and only
      if there were none. */
  lemma ApplyThenRestore(v: View, batches: seq<seq<Line>>)
    requires Disjoint(batches) && ApplyAll(v, batches).stopped.None?
    ensures AllDistinct(batches)
    ensures
      var r := RestoreAll(ApplyAll(v, batches).view.rows, batches);
      && r.Success? && r.value.Keys == v.rows.Keys + AllKeys(batches)
      && (forall key :: key in v.rows ==> r.value[key] == v.rows[key])
      && (r.value == v.rows <==> AllKeys(batches) <= v.rows.Keys)
  {
    hide ApplyAll, AllKeys, AllUntouched, Disjoint, HoldsLines, RestoreAll, AllDistinct;
    CompletesIffUntouched(v, batches);
    CompletedApplyIsExact(v, batches);
    UntouchedIsDistinct(v, batches);
    NothingLeft(v.rows, batches);
    RestoreAdds(v.rows - AllKeys(batches), batches);
    RestoredRows(v, batches, RestoreAll(v.rows - AllKeys(batches), batches).value);
  }

  lemma NothingLeft(rows: map<Key, nat>, batches: seq<seq<Line>>)
    ensures HoldsLines(rows - AllKeys(batches), batches)
  {
    forall b, i | 0 <= b < |batches| && 0 <= i < |batches[b]| ensures batches[b][i].key in AllKeys(batches) {
      KeyInAll(batches, b);
      assert batches[b][i].key in Keys(batches[b]);
    }
  }

  lemma RestoredText(v: View, batches: seq<seq<Line>>, r: map<Key, nat>, key: Key)
    requires AllUntouched(v, batches) && HoldsLines(r, batches) && key in v.rows && key in AllKeys(batches) && key in r
    ensures r[key] == v.rows[key]
  {
    KeysComeFromBatch(batches);
    var b :| 0 <= b < |batches| && key in Keys(batches[b]);
    var i :| 0 <= i < |batches[b]| && batches[b][i].key == key;
    assert BatchUntouched(v, batches[b]);
  }

  lemma UntouchedIsDistinct(v: View, batches: seq<seq<Line>>)
    requires AllUntouched(v, batches)
    ensures AllDistinct(batches)
  {
    forall b | 0 <= b < |batches| ensures DistinctKeys(batches[b]) { assert BatchUntouched(v, batches[b]); }
  }

  /** What a restore leaves, given that it kept the remaining rows and holds every archived line. */
  lemma RestoredRows(v: View, batches: seq<seq<Line>>, r: map<Key, nat>)
    requires AllUntouched(v, batches) && HoldsLines(r, batches)
    requires r.Keys == (v.rows - AllKeys(batches)).Keys + AllKeys(batches)
    requires forall key :: key in v.rows - AllKeys(batches) ==> r[key] == (v.rows - AllKeys(batches))[key]
    ensures r.Keys == v.rows.Keys + AllKeys(batches)
    ensures forall key :: key in v.rows ==> r[key] == v.rows[key]
    ensures r == v.rows <==> AllKeys(batches) <= v.rows.Keys
  {
    hide AllKeys, AllUntouched, HoldsLines;
    forall key | key in v.rows ensures r[key] == v.rows[key] {
      if key in AllKeys(batches) { RestoredText(v, batches, r, key); }
    }
    assert AllKeys(batches) <= v.rows.Keys ==> r.Keys == v.rows.Keys;
  }

  /** A restore killed after `k` batches and run again ends exactly like one whole restore. */
  lemma RestoreRerunEndsAlike(rows: map<Key, nat>, batches: seq<seq<Line>>, k: nat)
    requires k <= |batches| && AllDistinct(batches) && Disjoint(batches) && HoldsLines(rows, batches)
    ensures AllDistinct(batches[..k]) && RestoreAll(rows, batches[..k]).Success? && RestoreAll(rows, batches).Success?
    ensures RestoreAll(RestoreAll(rows, batches[..k]).value, batches) == RestoreAll(rows, batches)
  {
    PrefixDistinct(batches, k);
    hide RestoreAll, AllKeys, Disjoint, HoldsLines, AllDistinct;
    RestoreAdds(rows, batches[..k]);
    RestoreAdds(rows, batches);
    var killed, whole := RestoreAll(rows, batches[..k]).value, RestoreAll(rows, batches).value;
    PrefixHoldsLines(rows, batches, k, killed);
    RestoreAdds(killed, batches);
    PrefixKeys(batches, k);
    SameRestored(rows, killed, batches, whole, RestoreAll(killed, batches).value, k);
  }

  lemma PrefixDistinct(batches: seq<seq<Line>>, k: nat)
    requires k <= |batches| && AllDistinct(batches) && Disjoint(batches)
    ensures AllDistinct(batches[..k]) && Disjoint(batches[..k])
    ensures forall rows :: HoldsLines(rows, batches) ==> HoldsLines(rows, batches[..k])
  {
    hide Keys, DistinctKeys;
    forall rows | HoldsLines(rows, batches) ensures HoldsLines(rows, batches[..k]) {
      assert forall b :: 0 <= b < k ==> batches[..k][b] == batches[b];
    }
  }

  /** After part of a restore every archived line still agrees with the row of its key. */
  lemma PrefixHoldsLines(rows: map<Key, nat>, batches: seq<seq<Line>>, k: nat, killed: map<Key, nat>)
    requires k <= |batches| && Disjoint(batches) && HoldsLines(rows, batches) && HoldsLines(killed, batches[..k])
    requires killed.Keys == rows.Keys + AllKeys(batches[..k]) && forall key :: key in rows ==> killed[key] == rows[key]
    ensures HoldsLines(killed, batches)
  {
    hide AllKeys;
    forall b, i | 0 <= b < |batches| && 0 <= i < |batches[b]| && batches[b][i].key in killed
      ensures killed[batches[b][i].key] == batches[b][i].text
    {
      if b < k {
        assert batches[..k][b] == batches[b];
      } else {
        NotInPrefix(batches, k, b, batches[b][i].key);
      }
    }
  }

  lemma NotInPrefix(batches: seq<seq<Line>>, k: nat, b: nat, key: Key)
    requires k <= b < |batches| && Disjoint(batches) && exists i :: 0 <= i < |batches[b]| && batches[b][i].key == key
    ensures key !in AllKeys(batches[..k])
  {
    assert key in Keys(batches[b]);
    hide AllKeys, Keys;
    KeysComeFromBatch(batches[..k]);
    forall a | 0 <= a < k ensures key !in Keys(batches[..k][a]) { assert Keys(batches[a]) !! Keys(batches[b]); }
  }

  /** Two restored tables with the same keys, the same earlier rows and every archived text are equal. */
  lemma SameRestored(rows: map<Key, nat>, killed: map<Key, nat>, batches: seq<seq<Line>>, whole: map<Key, nat>, rerun: map<Key, nat>, k: nat)
    requires k <= |batches| && AllKeys(batches[..k]) <= AllKeys(batches) && killed.Keys == rows.Keys + AllKeys(batches[..k])
    requires HoldsLines(whole, batches) && HoldsLines(rerun, batches)
    requires whole.Keys == rows.Keys + AllKeys(batches) && rerun.Keys == killed.Keys + AllKeys(batches)
    requires forall key :: key in rows ==> killed[key] == rows[key] && whole[key] == rows[key]
    requires forall key :: key in killed ==> rerun[key] == killed[key]
    ensures rerun == whole
  {
    hide AllKeys, HoldsLines;
    forall key | key in whole ensures whole[key] == rerun[key] {
      if key in AllKeys(batches) { SameText(batches, whole, rerun, key); }
    }
    assert rerun.Keys == whole.Keys;
  }

  lemma SameText(batches: seq<seq<Line>>, a: map<Key, nat>, b: map<Key, nat>, key: Key)
    requires HoldsLines(a, batches) && HoldsLines(b, batches) && key in AllKeys(batches) && key in a && key in b
    ensures a[key] == b[key]
  {
    KeysComeFromBatch(batches);
    hide AllKeys;
    var n :| 0 <= n < |batches| && key in Keys(batches[n]);
    var i :| 0 <= i < |batches[n]| && batches[n][i].key == key;
  }

  /** So a row deleted between archiving and applying comes back on restore. */
  lemma RestoreResurrects() returns (v: View, batches: seq<seq<Line>>)
    ensures Disjoint(batches) && AllDistinct(batches) && ApplyAll(v, batches).stopped.None?
    ensures RestoreAll(ApplyAll(v, batches).view.rows, batches).Success?
    ensures RestoreAll(ApplyAll(v, batches).view.rows, batches).value != v.rows
  {
    v, batches := View(map[], {}, {}), [[Line(1, 5)]];
    CompletesIffUntouched(v, batches);
    assert BatchUntouched(v, batches[0]);
    ApplyThenRestore(v, batches);
    assert 1 in Keys(batches[0]) by { assert batches[0][0].key == 1; }
    KeyInAll(batches, 0);
  }
}
