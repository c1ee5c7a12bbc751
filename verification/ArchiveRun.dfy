/** The archive file and the table as the tool works through them: chunked verification, and an
    application that deletes batch by batch. */
module ArchiveRun {
  import opened Wrappers
  import HA = HistoryArchive
  import opened HistoryArchive

  const BATCH: nat := 1000

  /** Hashes are free terms: equal only for equal content. */
  datatype Digest = Digest(lines: seq<Line>)

  /** The next lines of a stream, at most one batch of them. */
  function Head(lines: seq<Line>): seq<Line> { if |lines| <= BATCH then lines else lines[..BATCH] }

  function Rest(lines: seq<Line>): (rest: seq<Line>)
    ensures lines == Head(lines) + rest && (|lines| > 0 ==> |rest| < |lines|)
  {
    if |lines| <= BATCH then [] else lines[BATCH..]
  }

  ghost function Chunks(lines: seq<Line>): seq<seq<Line>>
    decreases |lines|
  {
    if |lines| == 0 then [] else [Head(lines)] + Chunks(Rest(lines))
  }

  ghost function Checks(lines: seq<Line>): (checks: seq<Digest>)
    ensures |checks| == |Chunks(lines)| && forall i :: 0 <= i < |checks| ==> checks[i] == Digest(Chunks(lines)[i])
    decreases |lines|
  {
    if |lines| == 0 then [] else [Digest(Head(lines))] + Checks(Rest(lines))
  }

  ghost function Concat(chunks: seq<seq<Line>>): seq<Line> {
    if |chunks| == 0 then [] else chunks[0] + Concat(chunks[1..])
  }

  /** The chunks are the file, in order: nothing is lost, repeated or reordered. */
  lemma {:induction false} ChunksAreTheFile(lines: seq<Line>)
    ensures Concat(Chunks(lines)) == lines
    ensures forall i :: 0 <= i < |Chunks(lines)| ==> 0 < |Chunks(lines)[i]| <= BATCH
    decreases |lines|
  {
    if |lines| > 0 { ChunksAreTheFile(Rest(lines)); }
  }

  datatype Plan = Plan(rows: nat, logical: Digest)

  /** The verification pass: the plan's counts and hash, and one hash per chunk. */
  method VerifyArchive(plan: Plan, file: seq<Line>) returns (checks: Option<seq<Digest>>)
    ensures checks.Some? <==> plan == Plan(|file|, Digest(file))
    ensures checks.Some? ==> checks.value == Checks(file)
  {
    hide Head, Checks;
    var found, seen, count, stream := [], [], 0, file;
    assert [] + Checks(file) == Checks(file);
    NoChecks();
    while |stream| > 0
      invariant seen + stream == file && count == |seen|
      invariant found + Checks(stream) == Checks(file)
      decreases |stream|
    {
      var chunk := Head(stream);
      NextCheck(stream);
      Associate(seen, chunk, Rest(stream));
      Associate(found, [Digest(chunk)], Checks(Rest(stream)));
      seen, found, count, stream := seen + chunk, found + [Digest(chunk)], count + |chunk|, Rest(stream);
    }
    checks := if count == plan.rows && Digest(seen) == plan.logical then Some(found) else None;
  }

  lemma NextCheck(lines: seq<Line>)
    requires |lines| > 0
    ensures Checks(lines) == [Digest(Head(lines))] + Checks(Rest(lines))
  {
  }

  lemma NoChecks()
    ensures Checks([]) == []
  {
  }

  class Table {
    var rows: map<Key, nat>
    const scope: set<Key>
    const referenced: set<Key>

    ghost function Value(): View
      reads this
    {
      View(rows, scope, referenced)
    }

    /** Selects the batch's rows in scope, counts its rows anywhere, and looks for a changed one. */
    method SelectRows(batch: seq<Line>) returns (changed: bool, current: map<Key, nat>, total: nat)
      requires DistinctKeys(batch)
      ensures changed <==> exists i :: 0 <= i < |batch| && !Unchanged(Value(), batch[i])
      ensures current == Selected(Value(), batch) && total == |rows.Keys * Keys(batch)|
    {
      hide Selected, Keys, InScope;
      changed, current, total := false, map[], 0;
      NoRows(Value(), batch);
      for i := 0 to |batch|
        invariant current == Selected(Value(), batch[..i]) && total == |rows.Keys * Keys(batch[..i])|
        invariant changed <==> exists k :: 0 <= k < i && !Unchanged(Value(), batch[k])
      {
        NextRow(Value(), batch, i);
        hide DistinctKeys;
        var line := batch[i];
        if line.key in rows { total := total + 1; }
        if line.key in rows && line.key in scope {
          current := current[line.key := rows[line.key]];
          if rows[line.key] != line.text { changed := true; }
        }
        assert changed <==> (exists k :: 0 <= k < i && !Unchanged(Value(), batch[k])) || !Unchanged(Value(), batch[i]);
        hide Unchanged;
      }
      assert batch[..|batch|] == batch;
    }

    /** The checks of one transaction. */
    method CheckRows(batch: seq<Line>) returns (problem: Option<Abort>, current: map<Key, nat>)
      ensures problem == CheckBatch(Value(), batch)
      ensures problem.None? ==> current == Selected(Value(), batch)
      ensures problem.Some? ==> problem.value !in {ArchiveChanged, ArchiveGrew}
    {
      if !DistinctKeys(batch) { return Some(DuplicateKeys), map[]; }
      var changed, total;
      changed, current, total := SelectRows(batch);
      CountsAgree(Value(), batch);
      hide Selected, Keys, Unchanged, NotMoved, DistinctKeys;
      problem :=
        if changed then Some(RowChanged)
        else if total != |current| then Some(RowChangedOutsideScope)
        else if current != map[] && exists i :: 0 <= i < |batch| && batch[i].key in referenced then Some(ReferencedRowsRemain)
        else None;
    }

    /** One transaction of the application. */
    method RemoveBatch(batch: seq<Line>) returns (r: Result<nat, Abort>)
      modifies this`rows
      ensures r.Success? ==> HA.RemoveBatch(old(Value()), old(Value()), batch) == Success(Value())
                             && r.value == |Selected(old(Value()), batch)|
      ensures r.Failure? ==> rows == old(rows) && HA.RemoveBatch(old(Value()), old(Value()), batch) == Failure(r.error)
                             && r.error !in {ArchiveChanged, ArchiveGrew}
    {
      hide CheckBatch, Selected;
      var problem, current := CheckRows(batch);
      if problem.Some? { return Failure(problem.value); }
      if current != map[] { rows := rows - current.Keys; }
      r := Success(|current|);
    }

    /** `apply`: each batch is read, compared with its verified hash and committed. */
    method Apply(lines: seq<Line>, ghost verified: seq<Line>, checks: seq<Digest>)
      returns (r: Result<(nat, nat), Abort>, ghost done: nat)
      requires checks == Checks(verified)
      modifies this`rows
      ensures done <= |Chunks(verified)|
      ensures ApplyAll(old(Value()), Chunks(verified)[..done]).stopped.None?
      ensures Value() == ApplyAll(old(Value()), Chunks(verified)[..done]).view
      ensures r.Success? ==>
        && lines == verified && done == |Chunks(verified)|
        && r.value == (ApplyAll(old(Value()), Chunks(verified)).deleted, ApplyAll(old(Value()), Chunks(verified)).absent)
      ensures r.Failure? && r.error !in {ArchiveChanged, ArchiveGrew} ==>
        done < |Chunks(verified)| && ApplyAll(old(Value()), Chunks(verified)[..done + 1]).stopped == Some(r.error)
      ensures r == Failure(ArchiveChanged) || r == Failure(ArchiveGrew) ==> lines != verified
    {
      hide HA.RemoveBatch, ApplyAll, Chunks, Checks, Head, Selected, Keys;
      done := 0;
      var stream, deleted: nat, absent: nat := lines, 0, 0;
      ghost var expected, before, chunks := verified, Value(), Chunks(verified);
      NothingApplied(before, chunks);
      for k := 0 to |checks|
        invariant done == k && chunks[k..] == Chunks(expected)
        invariant lines == verified <==> stream == expected
        invariant ApplyAll(before, chunks[..k]) == Progress(Value(), deleted, absent, None)
      {
        NextChunk(chunks, expected, k);
        var chunk := Head(stream);
        if Digest(chunk) != checks[k] { return Failure(ArchiveChanged), done; }
        NextBatch(before, chunks, k);
        SameAfterChunk(stream, expected);
        var result := RemoveBatch(chunk);
        if result.Failure? { return Failure(result.error), done; }
        deleted, absent := deleted + result.value, absent + Missing(chunk, result.value);
        stream, expected := Rest(stream), Rest(expected);
        done := k + 1;
      }
      assert chunks[..done] == chunks;
      NoMoreChunks(expected);
      if |stream| > 0 { return Failure(ArchiveGrew), done; }
      r := Success((deleted, absent));
    }
  }

  lemma NextChunk(chunks: seq<seq<Line>>, expected: seq<Line>, k: nat)
    requires k < |chunks| && chunks[k..] == Chunks(expected)
    ensures |expected| > 0 && chunks[k] == Head(expected) && chunks[k + 1..] == Chunks(Rest(expected))
  {
    assert chunks[k..][0] == chunks[k] && chunks[k..][1..] == chunks[k + 1..];
  }

  lemma NoMoreChunks(expected: seq<Line>)
    ensures Chunks(expected) == [] <==> expected == []
  {
  }

  lemma SameAfterChunk(stream: seq<Line>, expected: seq<Line>)
    ensures Head(stream) == Head(expected) ==> (stream == expected <==> Rest(stream) == Rest(expected))
    ensures Head(stream) != Head(expected) ==> stream != expected
  {
    assert stream == Head(stream) + Rest(stream) && expected == Head(expected) + Rest(expected);
  }

  lemma NothingApplied(v: View, batches: seq<seq<Line>>)
    ensures ApplyAll(v, batches[..0]) == Progress(v, 0, 0, None)
  {
  }

  lemma NextBatch(v: View, batches: seq<seq<Line>>, k: nat)
    requires k < |batches|
    ensures ApplyAll(v, batches[..k + 1]) == ApplyBatch(ApplyAll(v, batches[..k]), batches[k])
  {
    assert batches[..k + 1][..k] == batches[..k];
  }

  lemma NoRows(v: View, batch: seq<Line>)
    ensures Selected(v, batch[..0]) == map[] && v.rows.Keys * Keys(batch[..0]) == {}
  {
    assert Keys(batch[..0]) == {};
  }

  lemma NextRow(v: View, batch: seq<Line>, i: nat)
    requires i < |batch| && DistinctKeys(batch)
    ensures Selected(v, batch[..i + 1]) ==
      if batch[i].key in v.rows && batch[i].key in v.scope
      then Selected(v, batch[..i])[batch[i].key := v.rows[batch[i].key]] else Selected(v, batch[..i])
    ensures |v.rows.Keys * Keys(batch[..i + 1])| == |v.rows.Keys * Keys(batch[..i])| + if batch[i].key in v.rows then 1 else 0
  {
    KeysStep(batch, i);
    assert batch[i].key !in Keys(batch[..i]);
    hide Keys;
    OneMoreKey(v, Keys(batch[..i]), batch[i].key);
    OneMoreCount(v.rows.Keys, Keys(batch[..i]), batch[i].key);
    hide InScope;
  }

  lemma OneMoreKey(v: View, keys: set<Key>, key: Key)
    ensures InScope(v, keys + {key}) == if key in v.rows && key in v.scope then InScope(v, keys)[key := v.rows[key]] else InScope(v, keys)
  {
  }

  lemma OneMoreCount(rows: set<Key>, keys: set<Key>, key: Key)
    requires key !in keys
    ensures |rows * (keys + {key})| == |rows * keys| + if key in rows then 1 else 0
  {
    assert rows * (keys + {key}) == rows * keys + if key in rows then {key} else {};
  }

  /** As many rows in scope as there are rows at all means none was moved out of scope. */
  lemma CountsAgree(v: View, batch: seq<Line>)
    ensures |Selected(v, batch)| == |v.rows.Keys * Keys(batch)| <==> forall i :: 0 <= i < |batch| ==> NotMoved(v, batch[i])
  {
    var found, moved, all := Selected(v, batch).Keys, Moved(v, batch), v.rows.Keys * Keys(batch);
    assert |Selected(v, batch)| == |found|;
    assert all == found + moved && found !! moved by { hide Keys; }
    NoneMoved(v, batch);
    hide *;
    SizeOfUnion(found, moved);
  }

  lemma SizeOfUnion(a: set<Key>, b: set<Key>)
    requires a !! b
    ensures |a + b| == |a| + |b| && (|b| == 0 <==> b == {})
  {
  }

  /** The keys of the batch whose row is out of scope. */
  ghost function Moved(v: View, batch: seq<Line>): set<Key> { set key | key in Keys(batch) && key in v.rows && key !in v.scope }

  lemma NoneMoved(v: View, batch: seq<Line>)
    ensures Moved(v, batch) == {} <==> forall i :: 0 <= i < |batch| ==> NotMoved(v, batch[i])
  {
    forall i | 0 <= i < |batch| && !NotMoved(v, batch[i]) ensures Moved(v, batch) != {} {
      assert batch[i].key in Moved(v, batch);
    }
    forall key | key in Moved(v, batch) ensures exists i :: 0 <= i < |batch| && !NotMoved(v, batch[i]) {
      var i :| 0 <= i < |batch| && batch[i].key == key;
      assert !NotMoved(v, batch[i]);
    }
  }
}
