/** What certifying an existing ingestion proves, and exactly when it can take a proof away. */
module RepairCertification {
  import opened Wrappers
  import opened QuantityRepair

  /** The only Raw object of the fact's ingestion that holds its key agrees with it, volume included. */
  ghost predicate BackedByRaw(db: Db, key: Key) {
    && key in db.facts && db.facts[key].ingestion in db.lineage
    && var raws := db.lineage[db.facts[key].ingestion];
       exists k :: 0 <= k < |raws| && key in raws[k].rows
         && raws[k].rows[key].volume == db.facts[key].volume && raws[k].rows[key].rest == db.facts[key].rest
         && forall l :: 0 <= l < |raws| && l != k ==> key !in raws[l].rows
  }

  lemma {:induction false} MatchingNone(raws: seq<RawObject>, key: Key)
    requires |Matching(raws, key)| == 0
    ensures forall k :: 0 <= k < |raws| ==> key !in raws[k].rows
  {
    if |raws| > 0 { MatchingNone(raws[..|raws| - 1], key); }
  }

  /** A single match is the only object holding the key. */
  lemma {:induction false} MatchingOne(raws: seq<RawObject>, key: Key) returns (k: nat)
    requires |Matching(raws, key)| == 1
    ensures k < |raws| && Matching(raws, key)[0] == raws[k] && key in raws[k].rows
    ensures forall l :: 0 <= l < |raws| && l != k ==> key !in raws[l].rows
  {
    var n := |raws| - 1;
    if key in raws[n].rows {
      k := n;
      MatchingNone(raws[..n], key);
    } else {
      k := MatchingOne(raws[..n], key);
    }
  }

  /** `evaluate_fact` answers "already correct" exactly for facts their Raw object backs. */
  lemma AlreadyCorrectMeansBacked(db: Db, key: Key)
    requires key in db.facts
    ensures Evaluate(db.lineage, key, db.facts[key]).status == AlreadyCorrect <==> BackedByRaw(db, key)
  {
    var fact := db.facts[key];
    var raws := if fact.ingestion in db.lineage then db.lineage[fact.ingestion] else [];
    if |Matching(raws, key)| == 1 {
      var k := MatchingOne(raws, key);
    } else if BackedByRaw(db, key) {
      var k :| 0 <= k < |raws| && key in raws[k].rows && forall l :: 0 <= l < |raws| && l != k ==> key !in raws[l].rows;
      OnlyMatch(raws, key, k);
    }
  }

  lemma {:induction false} OnlyMatch(raws: seq<RawObject>, key: Key, k: nat)
    requires k < |raws| && key in raws[k].rows && forall l :: 0 <= l < |raws| && l != k ==> key !in raws[l].rows
    ensures |Matching(raws, key)| == 1
  {
    var n := |raws| - 1;
    if k == n { NoMatch(raws[..n], key); } else { OnlyMatch(raws[..n], key, k); }
  }

  lemma {:induction false} NoMatch(raws: seq<RawObject>, key: Key)
    requires forall k :: 0 <= k < |raws| ==> key !in raws[k].rows
    ensures Matching(raws, key) == []
  {
    if |raws| > 0 { NoMatch(raws[..|raws| - 1], key); }
  }

  ghost predicate DistinctItems(group: seq<Item>) {
    forall i, j :: 0 <= i < j < |group| ==> group[i].key != group[j].key
  }

  ghost predicate Covered(group: seq<Item>, key: Key) {
    exists i :: 0 <= i < |group| && group[i].key == key
  }

  /** A certificate newly given to an ingestion means that the plan covers every fact now
      referencing it, that each of them is still as previewed, and that Raw backs each of them. */
  lemma CertifiedMeansEveryFactBacked(db: Db, run: nat, group: seq<Item>, key: Key)
    requires |group| > 0
    requires CertifyGroup(db, run, group) != db && CertifyGroup(db, run, group).certificates[group[0].original] == Certified(run)
    requires key in Referencing(db, group[0].original)
    ensures Covered(group, key) && BackedByRaw(db, key)
    ensures exists i :: 0 <= i < |group| && group[i].key == key && group[i].before == db.facts[key]
  {
    assert GroupComplete(db, group);
    assert RowCertifiable(db, group, key);
    var i :| 0 <= i < |group| && group[i].key == key && Rechecks(db, group[i], db.facts[key]);
    AlreadyCorrectMeansBacked(db, key);
  }

  /** Conversely a complete, unchanged and backed ingestion is certified. */
  lemma BackedIngestionIsCertified(db: Db, run: nat, group: seq<Item>)
    requires Eligible(group) && DistinctItems(group)
    requires Referencing(db, group[0].original) == set i | 0 <= i < |group| :: group[i].key
    requires forall i :: 0 <= i < |group| ==> group[i].key in db.facts && Rechecks(db, group[i], db.facts[group[i].key])
    ensures CertifyGroup(db, run, group).certificates[group[0].original] == Certified(run)
  {
    KeyCount(group);
    assert forall i :: 0 <= i < |group| ==> group[i].key in Referencing(db, group[0].original);
    hide Rechecks, Referencing;
  }

  lemma {:induction false} KeyCount(group: seq<Item>)
    requires DistinctItems(group)
    ensures |set i | 0 <= i < |group| :: group[i].key| == |group|
  {
    var keys := set i | 0 <= i < |group| :: group[i].key;
    if |group| > 0 {
      var n := |group| - 1;
      KeyCount(group[..n]);
      var init := set i | 0 <= i < n :: group[..n][i].key;
      assert keys == init + {group[n].key} by {
        forall key | key in keys ensures key in init + {group[n].key} {
          var i :| 0 <= i < |group| && group[i].key == key;
          if i < n { assert group[..n][i].key == key; }
        }
      }
      assert group[n].key !in init;
    }
  }

  /** A plan that already missed facts of the ingestion when it was previewed never takes a
      certificate away, whatever has changed since. */
  lemma PartialPreviewKeepsCertificate(db: Db, run: nat, group: seq<Item>)
    requires |group| > 0 && group[0].original in db.certificates && db.certificates[group[0].original].Certified?
    requires |group| != group[0].ingestionRows || |group| > MAX_CERTIFICATION_ROWS
    ensures CertifyGroup(db, run, group) == db
  {
  }

  /** The preview of this group saw fewer facts than the ingestion has, or more than can be certified. */
  ghost predicate PartialAtPreview(group: seq<Item>)
    requires |group| > 0
  {
    |group| != group[0].ingestionRows || |group| > MAX_CERTIFICATION_ROWS
  }

  /** A whole plan, or any part of it, keeps the certificate of an ingestion it did not derive itself
      when each of its groups for that ingestion was partial at preview. */
  lemma {:induction false} PartialPlanKeepsCertificate(db: Db, run: nat, actions: seq<Action>, id: Ingestion)
    requires forall a :: a in actions ==> ValidAction(a)
    requires id in db.certificates && db.certificates[id].Certified? && (id.Derived? ==> id.run != run)
    requires forall a :: a in actions && ValidAction(a) && a.CertifyAll? && a.group[0].original == id ==> PartialAtPreview(a.group)
    ensures
      var after := PerformAll(db, run, actions);
      id in after.certificates && after.certificates[id] == db.certificates[id]
  {
    hide Perform, PartialAtPreview, ValidAction;
    if |actions| > 0 {
      var n := |actions| - 1;
      PartialPlanKeepsCertificate(db, run, actions[..n], id);
      PartialActionKeepsCertificate(PerformAll(db, run, actions[..n]), run, actions[n], id);
    }
  }

  lemma PartialActionKeepsCertificate(db: Db, run: nat, a: Action, id: Ingestion)
    requires ValidAction(a) && id in db.certificates && db.certificates[id].Certified? && (id.Derived? ==> id.run != run)
    requires a.CertifyAll? && a.group[0].original == id ==> PartialAtPreview(a.group)
    ensures id in Perform(db, run, a).certificates && Perform(db, run, a).certificates[id] == db.certificates[id]
  {
    match a
    case RepairOne(item) =>
      hide IsMatched, IsAlreadyApplied, Previous, Matching, Repaired;
    case CertifyAll(group) =>
      hide GroupComplete, IncompleteScope;
      if group[0].original == id { PartialPreviewKeepsCertificate(db, run, group); }
  }

  /** A plan complete at preview that misses a fact now takes the certificate away exactly when
      counting cannot tell: it holds an item that is not already correct, or as many facts now
      reference the ingestion as it has items. */
  lemma MissedFactDowngradesIff(db: Db, run: nat, group: seq<Item>, missed: Key)
    requires |group| > 0 && group[0].original in db.certificates && db.certificates[group[0].original].Certified?
    requires |group| == group[0].ingestionRows && |group| <= MAX_CERTIFICATION_ROWS
    requires missed in Referencing(db, group[0].original) && !Covered(group, missed)
    ensures CertifyGroup(db, run, group).certificates[group[0].original].Withheld?
        <==> (exists i :: 0 <= i < |group| && group[i].found.status != AlreadyCorrect)
             || |Referencing(db, group[0].original)| == |group|
  {
    assert !RowCertifiable(db, group, missed);
    hide Rechecks, RowCertifiable, Referencing;
  }

  /** So "a plan with an incomplete scope never revokes a certificate" is false of a scope that
      became incomplete after the preview: one quarantined item, one fact added since. */
  lemma GrownScopeRevokes()
    returns (db: Db, group: seq<Item>, missed: Key)
    ensures |group| > 0 && group[0].original in db.certificates && db.certificates[group[0].original].Certified?
    ensures missed in Referencing(db, group[0].original) && !Covered(group, missed)
    ensures CertifyGroup(db, 1, group).certificates[group[0].original] == Withheld(1)
  {
    var fact := Fact(Some(7), Original(0), 0);
    var item := Item(("A", 1), Original(0), fact, Evaluation(Quarantined, None, 0), 1);
    group, missed := [item], ("A", 2);
    db := Db(map[("A", 1) := fact, ("A", 2) := fact], map[], [], map[Original(0) := Certified(0)], map[]);
    assert missed in db.facts && db.facts[missed].ingestion == Original(0);
    assert group[0].key != missed;
    assert !Eligible(group) by { assert group[0].found.status == Quarantined; }
  }
}
