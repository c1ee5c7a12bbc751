/** When a fact is to be repaired, with what, and what the repair leaves behind. */
module RepairEvidence {
  import opened Wrappers
  import opened QuantityRepair
  import opened RepairCertification

  function RawsOf(lineage: map<Ingestion, seq<RawObject>>, fact: Fact): seq<RawObject> {
    if fact.ingestion in lineage then lineage[fact.ingestion] else []
  }

  /** Raw object `k` is the only one of the fact's ingestion that holds its key. */
  ghost predicate SoleHolder(raws: seq<RawObject>, key: Key, k: int) {
    0 <= k < |raws| && key in raws[k].rows && forall l :: 0 <= l < |raws| && l != k ==> key !in raws[l].rows
  }

  /** The fact holds what a legacy mapper made of the record: its hundredth, or nothing when the record
      is not a whole number of lots. */
  ghost predicate MappedFromLots(fact: Fact, record: Record) {
    && record.rest == fact.rest
    && match fact.volume
       case Some(v) => v != 0 && record.volume == Some(100 * v)
       case None => record.volume.Some? && record.volume.value % 100 != 0
  }

  /** The fact differs from its only record exactly by the legacy mapping. */
  ghost predicate NeedsRepair(raws: seq<RawObject>, key: Key, fact: Fact, k: int) {
    SoleHolder(raws, key, k) && raws[k].legacyLots && MappedFromLots(fact, raws[k].rows[key])
  }

  lemma SoleMatch(raws: seq<RawObject>, key: Key, k: int)
    requires SoleHolder(raws, key, k)
    ensures Matching(raws, key) == [raws[k]]
  {
    OnlyMatch(raws, key, k);
    var j := MatchingOne(raws, key);
    assert j == k;
  }

  lemma MatchIsSole(raws: seq<RawObject>, key: Key) returns (k: int)
    requires |Matching(raws, key)| == 1
    ensures SoleHolder(raws, key, k) && Matching(raws, key) == [raws[k]]
  {
    k := MatchingOne(raws, key);
  }

  lemma LotsAreHundredths(volume: Option<int>, target: Option<int>, raw: RawObject)
    requires raw.legacyLots && volume != target
    ensures LegacyVolume(raw, target) == volume <==>
      match volume
      case Some(v) => v != 0 && target == Some(100 * v)
      case None => target.Some? && target.value % 100 != 0
  {
  }

  lemma RepairOfHolder(lineage: map<Ingestion, seq<RawObject>>, key: Key, fact: Fact, k: int)
    requires SoleHolder(RawsOf(lineage, fact), key, k)
    ensures Evaluate(lineage, key, fact).status == Repair <==> NeedsRepair(RawsOf(lineage, fact), key, fact, k)
    ensures Evaluate(lineage, key, fact).target == RawsOf(lineage, fact)[k].rows[key].volume
    ensures Evaluate(lineage, key, fact).rawHash == RawsOf(lineage, fact)[k].hash
  {
    var raw := RawsOf(lineage, fact)[k];
    SoleMatch(RawsOf(lineage, fact), key, k);
    hide SoleHolder, Matching, LegacyVolume;
    if fact.volume != raw.rows[key].volume && raw.legacyLots { LotsAreHundredths(fact.volume, raw.rows[key].volume, raw); }
  }

  /** `evaluate_fact` answers "repair" exactly for facts that a legacy mapper made of their one record. */
  lemma RepairMeansMappedFromLots(lineage: map<Ingestion, seq<RawObject>>, key: Key, fact: Fact)
    ensures Evaluate(lineage, key, fact).status == Repair <==> exists k :: NeedsRepair(RawsOf(lineage, fact), key, fact, k)
  {
    var raws := RawsOf(lineage, fact);
    if |Matching(raws, key)| == 1 {
      var k := MatchIsSole(raws, key);
      RepairOfHolder(lineage, key, fact, k);
      forall l | NeedsRepair(raws, key, fact, l) ensures l == k { }
    } else {
      forall k ensures !SoleHolder(raws, key, k) { if SoleHolder(raws, key, k) { SoleMatch(raws, key, k); } }
    }
  }

  /** The evidence of an evaluation is the one record and its object: the target volume and the hash. */
  lemma EvidenceIsTheRecord(lineage: map<Ingestion, seq<RawObject>>, key: Key, fact: Fact)
    requires Evaluate(lineage, key, fact).status != Quarantined
    ensures exists k :: SoleHolder(RawsOf(lineage, fact), key, k) && Names(Evaluate(lineage, key, fact), RawsOf(lineage, fact)[k], key)
  {
    var k := MatchIsSole(RawsOf(lineage, fact), key);
    RepairOfHolder(lineage, key, fact, k);
    hide Evaluate, SoleHolder;
    assert Names(Evaluate(lineage, key, fact), RawsOf(lineage, fact)[k], key);
  }

  ghost predicate Names(e: Evaluation, raw: RawObject, key: Key) {
    key in raw.rows && e.target == raw.rows[key].volume && e.rawHash == raw.hash
  }

  /** A repair leaves a fact that Raw backs: its volume, the rest of its row and its new lineage agree. */
  lemma RepairedIsBacked(db: Db, run: nat, item: Item)
    requires IsMatched(db, item) && item.found.status == Repair
    ensures BackedByRaw(ApplyItem(db, run, item), item.key)
    ensures ApplyItem(db, run, item).facts[item.key] == item.before.(volume := item.found.target, ingestion := Derived(run, ItemKeyOf(item)))
  {
    var raws := RawsOf(db.lineage, item.before);
    var k := MatchIsSole(raws, item.key);
    RepairOfHolder(db.lineage, item.key, item.before, k);
    var after := ApplyItem(db, run, item);
    AfterRepair(db, run, item);
    hide ApplyItem, IsMatched, Matching, Evaluate, Rechecks;
    assert after.lineage[after.facts[item.key].ingestion] == [raws[k]];
  }

  lemma AfterRepair(db: Db, run: nat, item: Item)
    requires IsMatched(db, item)
    ensures
      var after, own := ApplyItem(db, run, item), Derived(run, ItemKeyOf(item));
      && item.key in after.facts && after.facts[item.key] == item.before.(volume := item.found.target, ingestion := own)
      && own in after.lineage && after.lineage[own] == Matching(RawsOf(db.lineage, item.before), item.key)
  {
    hide Rechecks, Matching, IsAlreadyApplied, Previous;
  }
}
